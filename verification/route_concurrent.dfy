// Concurrent runs of the route manager. AddRule takes the lock twice (insert, then enable or roll
// back), Remove and RemoveTab once, and listeners are cancelled after the lock is released; any
// sections of any callers may interleave. A step of the machine is one such section.

module RouteConcurrency {
  import opened GoText
  import opened RouteRules
  import opened RouteTable

  // A caller between two sections: waiting for Chrome, or about to cancel a listener.
  datatype Caller = AwaitingChrome(tab: string, ticket: Ticket) | AboutToCancel(listener: nat)

  datatype State = State(table: Table, nextListener: nat, callers: map<nat, Caller>, cancelled: set<nat>)

  datatype Action =
    | InsertRule(caller: nat, tab: string, rule: Rule)
    | ChromeEnabled(caller: nat)
    | ChromeFailed(caller: nat)
    | RemoveRules(caller: nat, tab: string, pattern: string)
    | RemoveTab(caller: nat, tab: string)
    | CancelListener(caller: nat)

  const INITIAL := State(map[], 0, map[], {})

  predicate Enabled(s: State, a: Action) {
    match a
    case InsertRule(c, _, rule) => c !in s.callers && Validated(rule)
    case ChromeEnabled(c) => c in s.callers && s.callers[c].AwaitingChrome?
    case ChromeFailed(c) => c in s.callers && s.callers[c].AwaitingChrome?
    case RemoveRules(c, _, _) => c !in s.callers
    case RemoveTab(c, _) => c !in s.callers
    case CancelListener(c) => c in s.callers && s.callers[c].AboutToCancel?
  }

  function Owing(callers: map<nat, Caller>, c: nat, listener: Option<nat>): map<nat, Caller> {
    if listener.Some? then callers[c := AboutToCancel(listener.value)] else callers - {c}
  }

  function Apply(s: State, a: Action): State
    requires Enabled(s, a)
  {
    match a
    case InsertRule(c, tab, rule) =>
      (match Insert(s.table, tab, rule, s.nextListener)
       case TooManyRules => s
       case Inserted(t, k) =>
         State(t,
               if k.registered then s.nextListener + 1 else s.nextListener,
               if k.needEnable then s.callers[c := AwaitingChrome(tab, k)] else s.callers,
               s.cancelled))
    case ChromeEnabled(c) =>
      s.(table := Enable(s.table, s.callers[c].tab), callers := s.callers - {c})
    case ChromeFailed(c) =>
      var (t, l) := Rollback(s.table, s.callers[c].tab, s.callers[c].ticket);
      s.(table := t, callers := Owing(s.callers, c, l))
    case RemoveRules(c, tab, pattern) =>
      (match RemovePattern(s.table, tab, pattern)
       case NotRouted => s
       case Kept(t, _) => s.(table := t)
       case TornDown(t, _, l, _) => s.(table := t, callers := Owing(s.callers, c, l)))
    case RemoveTab(c, tab) =>
      var (t, l) := DropTab(s.table, tab);
      if tab == "" then s else s.(table := t, callers := Owing(s.callers, c, l))
    case CancelListener(c) =>
      s.(callers := s.callers - {c}, cancelled := s.cancelled + {s.callers[c].listener})
  }

  // ---------------------------------------------------------------- what a step does to the rules

  // The same tabs with the same rules, but for one tab.
  ghost predicate OnlyTab(was: Table, now: Table, tab: string) {
    now - {tab} == was - {tab}
  }

  // Read as ordered maps: an insertion puts the rule under its pattern, unless it is a new one on a full
  // tab; a removal removes exactly what it is asked to; a tab that goes takes its rules with it; a caller
  // whose rule Chrome refused leaves the rules it had found; nothing else touches rules.
  lemma StepEffects(s: State, a: Action)
    requires Enabled(s, a)
    ensures var was, now := s.table, Apply(s, a).table;
            match a
            case InsertRule(_, tab, rule) =>
              && OnlyTab(was, now, tab)
              && Abs(RulesOf(now, tab))
                 == (if |RulesOf(was, tab)| >= MAX_RULES_PER_TAB && rule.pattern !in Patterns(RulesOf(was, tab)) then Abs(RulesOf(was, tab))
                     else Put(Abs(RulesOf(was, tab)), rule.pattern, rule))
            case RemoveRules(_, tab, pattern) => exists removed :: RemovesExactly(was, tab, pattern, now, removed)
            case RemoveTab(_, tab) => now == if tab == "" then was else was - {tab}
            case ChromeFailed(c) =>
              var tab := s.callers[c].tab;
              && OnlyTab(was, now, tab)
              && RulesOf(now, tab) == if tab in was then s.callers[c].ticket.priorRules else []
            case ChromeEnabled(c) =>
              var tab := s.callers[c].tab;
              && OnlyTab(was, now, tab) && now.Keys == was.Keys
              && (tab in was ==> now[tab] == was[tab].(fetchEnabled := true))
            case CancelListener(_) => now == was
  {
    match a
    case InsertRule(_, tab, rule) => InsertPuts(s.table, tab, rule, s.nextListener);
    case RemoveRules(_, tab, pattern) => RemovalIsExact(s.table, tab, pattern);
    case RemoveTab(_, tab) => assert tab !in s.table ==> s.table - {tab} == s.table;
    case ChromeFailed(c) => RollbackRules(s.table, s.callers[c].tab, s.callers[c].ticket, s.callers[c].tab);
    case ChromeEnabled(c) =>
    case CancelListener(_) =>
  }

  lemma InsertPuts(t: Table, tab: string, rule: Rule, n: nat)
    ensures var rules := RulesOf(t, tab);
            match Insert(t, tab, rule, n)
            case TooManyRules => |rules| >= MAX_RULES_PER_TAB && rule.pattern !in Patterns(rules)
            case Inserted(t', _) =>
              && OnlyTab(t, t', tab) && !(|rules| >= MAX_RULES_PER_TAB && rule.pattern !in Patterns(rules))
              && Abs(RulesOf(t', tab)) == Put(Abs(rules), rule.pattern, rule)
  {
    UpsertRefinesPut(RulesOf(t, tab), rule);
    hide Upsert, Abs, Put;
  }

  // ---------------------------------------------------------------- the invariant

  // Where a listener can be: installed for a tab, owed a cancellation by a caller, or cancelled.
  datatype Holder = InTable(tab: string) | WithCaller(c: nat) | Cancelled

  predicate Holds(s: State, h: Holder, l: nat) {
    match h
    case InTable(tab) => tab in s.table && s.table[tab].listener == Some(l)
    case WithCaller(c) => c in s.callers && s.callers[c] == AboutToCancel(l)
    case Cancelled => l in s.cancelled
  }

  ghost predicate Held(s: State, l: nat) {
    exists h :: Holds(s, h, l)
  }

  ghost predicate GoodTable(t: Table) {
    forall tab :: tab in t ==> GoodRules(t[tab].rules) && t[tab].listener.Some?
  }

  // A caller that created the entry saw nothing before it; any other saw a good list and a listener.
  predicate GoodTicket(k: Ticket) {
    && k.registered == k.isNew
    && (if k.isNew then k.priorRules == [] else GoodRules(k.priorRules))
  }

  ghost predicate Inv(s: State) {
    && GoodTable(s.table)
    && (forall c :: c in s.callers && s.callers[c].AwaitingChrome? ==> GoodTicket(s.callers[c].ticket))
    && (forall h, l: nat :: Holds(s, h, l) ==> l < s.nextListener)
    && (forall h1, h2, l: nat :: Holds(s, h1, l) && Holds(s, h2, l) ==> h1 == h2)
    && (forall l: nat :: l < s.nextListener ==> Held(s, l))
  }

  lemma InitialInv()
    ensures Inv(INITIAL)
  {
  }

  // Every step below changes which holder has which listener in one simple way.
  lemma HoldersUnchanged(s: State, s': State)
    requires Inv(s) && GoodTable(s'.table)
    requires forall c :: c in s'.callers && s'.callers[c].AwaitingChrome? ==> GoodTicket(s'.callers[c].ticket)
    requires s'.nextListener == s.nextListener
    requires forall h, l: nat :: Holds(s', h, l) <==> Holds(s, h, l)
    ensures Inv(s')
  {
    forall m: nat | m < s'.nextListener ensures Held(s', m) {
      assert Held(s, m);
      var h :| Holds(s, h, m);
      assert Holds(s', h, m);
    }
  }

  lemma ListenerMoved(s: State, s': State, from: Holder, to: Holder, l: nat)
    requires Inv(s) && GoodTable(s'.table)
    requires forall c :: c in s'.callers && s'.callers[c].AwaitingChrome? ==> GoodTicket(s'.callers[c].ticket)
    requires s'.nextListener == s.nextListener
    requires Holds(s, from, l) && Holds(s', to, l) && (from == to || !Holds(s', from, l))
    requires forall h, m: nat :: (h, m) != (from, l) && (h, m) != (to, l) ==> (Holds(s', h, m) <==> Holds(s, h, m))
    ensures Inv(s')
  {
    forall m: nat | m < s'.nextListener ensures Held(s', m) {
      assert Held(s, m);
      var h :| Holds(s, h, m);
      if h == from && m == l {
        assert Holds(s', to, m);
      } else {
        assert Holds(s', h, m);
      }
    }
  }

  lemma ListenerCreated(s: State, s': State, at: Holder)
    requires Inv(s) && GoodTable(s'.table)
    requires forall c :: c in s'.callers && s'.callers[c].AwaitingChrome? ==> GoodTicket(s'.callers[c].ticket)
    requires s'.nextListener == s.nextListener + 1
    requires Holds(s', at, s.nextListener)
    requires forall h, m: nat :: (h, m) != (at, s.nextListener) ==> (Holds(s', h, m) <==> Holds(s, h, m))
    ensures Inv(s')
  {
    forall m: nat | m < s'.nextListener ensures Held(s', m) {
      if m < s.nextListener {
        assert Held(s, m);
        var h :| Holds(s, h, m);
        assert Holds(s', h, m);
      }
    }
  }

  lemma InsertedIsGood(t: Table, tab: string, rule: Rule, n: nat)
    requires GoodTable(t) && Validated(rule)
    ensures var e := EntryOrEmpty(t, tab);
            match Insert(t, tab, rule, n)
            case TooManyRules => true
            case Inserted(t', k) => GoodRules(Upsert(e.rules, rule)) && GoodTicket(k)
  {
    hide Upsert, Patterns, Validated;
    UpsertGood(EntryOrEmpty(t, tab).rules, rule);
  }

  lemma InsertKeepsInv(s: State, c: nat, tab: string, rule: Rule)
    requires Inv(s) && Enabled(s, InsertRule(c, tab, rule))
    ensures Inv(Apply(s, InsertRule(c, tab, rule)))
  {
    hide Upsert, GoodRules, Validated, Patterns;
    var s' := Apply(s, InsertRule(c, tab, rule));
    InsertedIsGood(s.table, tab, rule, s.nextListener);
    if Insert(s.table, tab, rule, s.nextListener).Inserted? {
      assert GoodTable(s'.table);
      forall h, m: nat | (h, m) != (InTable(tab), s.nextListener) ensures Holds(s', h, m) <==> Holds(s, h, m) {
      }
      if tab in s.table {
        HoldersUnchanged(s, s');
      } else {
        ListenerCreated(s, s', InTable(tab));
      }
    }
  }

  lemma RollbackKeepsInv(s: State, c: nat)
    requires Inv(s) && Enabled(s, ChromeFailed(c))
    ensures Inv(Apply(s, ChromeFailed(c)))
  {
    var s' := Apply(s, ChromeFailed(c));
    var tab, k := s.callers[c].tab, s.callers[c].ticket;
    assert GoodTicket(k);
    assert GoodTable(s'.table);
    if tab in s.table && k.registered {
      var l := s.table[tab].listener.value;
      assert Holds(s, InTable(tab), l);
      forall h, m: nat | (h, m) != (InTable(tab), l) && (h, m) != (WithCaller(c), l)
        ensures Holds(s', h, m) <==> Holds(s, h, m)
      {
      }
      ListenerMoved(s, s', InTable(tab), WithCaller(c), l);
    } else {
      forall h, m: nat ensures Holds(s', h, m) <==> Holds(s, h, m) {
      }
      HoldersUnchanged(s, s');
    }
  }

  // A section that takes the whole entry out and leaves its caller to cancel the listener.
  lemma TearDownKeepsInv(s: State, s': State, c: nat, tab: string)
    requires Inv(s) && c !in s.callers && tab in s.table
    requires s' == s.(table := s.table - {tab}, callers := Owing(s.callers, c, s.table[tab].listener))
    ensures Inv(s')
  {
    var l := s.table[tab].listener.value;
    assert Holds(s, InTable(tab), l);
    forall h, m: nat | (h, m) != (InTable(tab), l) && (h, m) != (WithCaller(c), l)
      ensures Holds(s', h, m) <==> Holds(s, h, m)
    {
    }
    ListenerMoved(s, s', InTable(tab), WithCaller(c), l);
  }

  lemma RemoveKeepsInv(s: State, c: nat, tab: string, pattern: string)
    requires Inv(s) && Enabled(s, RemoveRules(c, tab, pattern))
    ensures Inv(Apply(s, RemoveRules(c, tab, pattern)))
  {
    var s' := Apply(s, RemoveRules(c, tab, pattern));
    if tab in s.table {
      var left := Remaining(s.table[tab].rules, pattern);
      WithoutGood(s.table[tab].rules, pattern);
      if left == [] {
        TearDownKeepsInv(s, s', c, tab);
      } else {
        assert GoodTable(s'.table);
        forall h, m: nat ensures Holds(s', h, m) <==> Holds(s, h, m) {
        }
        HoldersUnchanged(s, s');
      }
    }
  }

  lemma StepKeepsInv(s: State, a: Action)
    requires Inv(s) && Enabled(s, a)
    ensures Inv(Apply(s, a))
  {
    var s' := Apply(s, a);
    match a
    case InsertRule(c, tab, rule) => InsertKeepsInv(s, c, tab, rule);
    case ChromeFailed(c) => RollbackKeepsInv(s, c);
    case RemoveRules(c, tab, pattern) => RemoveKeepsInv(s, c, tab, pattern);
    case RemoveTab(c, tab) =>
      if tab != "" {
        if tab in s.table {
          TearDownKeepsInv(s, s', c, tab);
        } else {
          assert s' == s;
        }
      }
    case ChromeEnabled(c) =>
      forall h, m: nat ensures Holds(s', h, m) <==> Holds(s, h, m) {
      }
      HoldersUnchanged(s, s');
    case CancelListener(c) =>
      var l := s.callers[c].listener;
      assert Holds(s, WithCaller(c), l);
      forall h, m: nat | (h, m) != (WithCaller(c), l) && (h, m) != (Cancelled, l)
        ensures Holds(s', h, m) <==> Holds(s, h, m)
      {
      }
      ListenerMoved(s, s', WithCaller(c), Cancelled, l);
  }

  // ---------------------------------------------------------------- runs

  // Performing the actions in order, each one being possible when its turn comes.
  ghost predicate Run(s: State, actions: seq<Action>, end: State)
    decreases |actions|
  {
    if actions == [] then end == s
    else Enabled(s, actions[0]) && Run(Apply(s, actions[0]), actions[1..], end)
  }

  lemma {:induction false} RunKeepsInv(s: State, actions: seq<Action>, end: State)
    requires Inv(s) && Run(s, actions, end)
    ensures Inv(end)
    decreases |actions|
  {
    if actions != [] {
      StepKeepsInv(s, actions[0]);
      RunKeepsInv(Apply(s, actions[0]), actions[1..], end);
    }
  }

  // At every lock release of every interleaving, each tab on record has between one and the maximum
  // of validated rules with pairwise distinct non-empty patterns, and a listener that nobody has cancelled.
  lemma EveryInterleavingIsSafe(actions: seq<Action>, s: State, tab: string)
    requires Run(INITIAL, actions, s) && tab in s.table
    ensures 1 <= |s.table[tab].rules| <= MAX_RULES_PER_TAB
    ensures forall r :: r in s.table[tab].rules ==> Validated(r) && r.pattern != ""
    ensures DistinctPatterns(s.table[tab].rules)
    ensures s.table[tab].listener.Some? && s.table[tab].listener.value !in s.cancelled
  {
    InitialInv();
    RunKeepsInv(INITIAL, actions, s);
    var l := s.table[tab].listener.value;
    assert Holds(s, InTable(tab), l);
    assert l in s.cancelled ==> Holds(s, Cancelled, l);
  }

  // No listener leaks and none is shared: once no caller is in the middle of an operation, every
  // listener ever created is either cancelled or installed for exactly one tab, never both.
  lemma ListenersAreConserved(actions: seq<Action>, s: State, l: nat)
    requires Run(INITIAL, actions, s) && s.callers == map[]
    ensures l < s.nextListener <==> (l in s.cancelled || exists tab :: tab in s.table && s.table[tab].listener == Some(l))
    ensures forall a, b :: a in s.table && b in s.table && s.table[a].listener == s.table[b].listener ==> a == b
    ensures l in s.cancelled ==> forall tab :: tab in s.table ==> s.table[tab].listener != Some(l)
  {
    InitialInv();
    RunKeepsInv(INITIAL, actions, s);
    if l < s.nextListener {
      assert Held(s, l);
      var h :| Holds(s, h, l);
      assert !h.WithCaller?;
    }
    if l in s.cancelled {
      assert Holds(s, Cancelled, l);
    }
    if tab :| tab in s.table && s.table[tab].listener == Some(l) {
      assert Holds(s, InTable(tab), l);
    }
    forall a, b | a in s.table && b in s.table && s.table[a].listener == s.table[b].listener ensures a == b {
      var m := s.table[a].listener.value;
      assert Holds(s, InTable(a), m) && Holds(s, InTable(b), m);
    }
    forall tab | tab in s.table && l in s.cancelled ensures s.table[tab].listener != Some(l) {
      assert Holds(s, Cancelled, l) && !Holds(s, InTable(tab), l);
    }
  }

  // ---------------------------------------------------------------- what rollback may lose

  // A failed AddRule puts the table back to what its own insertion found exactly when, meanwhile, no
  // section touched other tabs, and the tab, if it was on record, still is with the listener it had. Its
  // rules do not matter: whatever they have become is overwritten.
  lemma RollbackIsExact(before: State, c: nat, tab: string, rule: Rule, s: State)
    requires Inv(before) && Enabled(before, InsertRule(c, tab, rule))
    requires Insert(before.table, tab, rule, before.nextListener).Inserted?
    requires Inv(s) && c in s.callers
    requires s.callers[c] == AwaitingChrome(tab, Insert(before.table, tab, rule, before.nextListener).ticket)
    ensures Apply(s, ChromeFailed(c)).table == before.table
      <==> && s.table - {tab} == before.table - {tab}
           && (tab in before.table ==> tab in s.table && s.table[tab].listener == before.table[tab].listener)
  {
    RollbackUndoes(before.table, tab, rule, before.nextListener, s.table);
  }

  // Which rules a failing AddRule discards and which it brings back: if its tab is still on record, those
  // that the tab's list has gained, respectively lost, since the insertion; otherwise none. No other
  // tab's rules change.
  lemma RollbackDiscardsExactly(s: State, c: nat, other: string, r: Rule)
    requires Inv(s) && Enabled(s, ChromeFailed(c))
    ensures var tab, prior := s.callers[c].tab, s.callers[c].ticket.priorRules;
            var now, back := RulesOf(s.table, other), RulesOf(Apply(s, ChromeFailed(c)).table, other);
            && (r in now && r !in back <==> other == tab && r in now && r !in prior)
            && (r in back && r !in now <==> other == tab && tab in s.table && r in prior && r !in now)
  {
    RollbackRules(s.table, s.callers[c].tab, s.callers[c].ticket, other);
  }

  // The sections of AddRule that put rules into a tab's list, and those of Remove and RemoveTab.
  predicate AddsTo(s: State, a: Action, tab: string)
    requires Enabled(s, a)
  {
    (a.InsertRule? && a.tab == tab) || (a.ChromeFailed? && s.callers[a.caller].tab == tab)
  }

  predicate TakesFrom(a: Action, tab: string) {
    (a.RemoveRules? || a.RemoveTab?) && a.tab == tab
  }

  // A run in which no such section, respectively neither kind, touches the tab, and caller c is waiting.
  ghost predicate Undisturbed(s: State, actions: seq<Action>, end: State, c: nat, tab: string, removalsToo: bool)
    decreases |actions|
  {
    if actions == [] then end == s
    else
      && Enabled(s, actions[0]) && actions[0].caller != c && !AddsTo(s, actions[0], tab)
      && (removalsToo ==> !TakesFrom(actions[0], tab))
      && Undisturbed(Apply(s, actions[0]), actions[1..], end, c, tab, removalsToo)
  }

  lemma StepOnlyTakes(s: State, a: Action, tab: string)
    requires Enabled(s, a) && !AddsTo(s, a, tab)
    ensures forall r :: r in RulesOf(Apply(s, a).table, tab) ==> r in RulesOf(s.table, tab)
    ensures !TakesFrom(a, tab) ==> RulesOf(Apply(s, a).table, tab) == RulesOf(s.table, tab)
  {
    if a.RemoveRules? && a.tab in s.table && a.pattern != "" {
      WithoutMembers(s.table[a.tab].rules, a.pattern);
    }
  }

  lemma {:induction false} OnlyTakes(s: State, actions: seq<Action>, end: State, c: nat, tab: string, removalsToo: bool)
    requires Undisturbed(s, actions, end, c, tab, removalsToo) && Inv(s) && c in s.callers
    ensures Inv(end) && c in end.callers && end.callers[c] == s.callers[c]
    ensures forall r :: r in RulesOf(end.table, tab) ==> r in RulesOf(s.table, tab)
    ensures removalsToo ==> RulesOf(end.table, tab) == RulesOf(s.table, tab)
    decreases |actions|
  {
    if actions != [] {
      StepKeepsInv(s, actions[0]);
      StepOnlyTakes(s, actions[0], tab);
      OnlyTakes(Apply(s, actions[0]), actions[1..], end, c, tab, removalsToo);
    }
  }

  // If no other AddRule section ran on the tab since its insertion, a failing AddRule discards no rule but
  // its own. If no removal ran there either, it brings back none but the one it had replaced itself.
  lemma LoneAddRuleHarmsNobody(before: State, c: nat, tab: string, mine: Rule, actions: seq<Action>, s: State, removalsToo: bool)
    requires Inv(before) && Enabled(before, InsertRule(c, tab, mine))
    requires var started := Apply(before, InsertRule(c, tab, mine));
             c in started.callers && Undisturbed(started, actions, s, c, tab, removalsToo)
    ensures Enabled(s, ChromeFailed(c))
    ensures var now, back := RulesOf(s.table, tab), RulesOf(Apply(s, ChromeFailed(c)).table, tab);
            && (forall r :: r in now && r !in back ==> r == mine)
            && (removalsToo ==> forall r :: r in back && r !in now ==> r.pattern == mine.pattern)
  {
    var started := Apply(before, InsertRule(c, tab, mine));
    var prior := RulesOf(before.table, tab);
    StepKeepsInv(before, InsertRule(c, tab, mine));
    OnlyTakes(started, actions, s, c, tab, removalsToo);
    RollbackRules(s.table, tab, s.callers[c].ticket, tab);
    UpsertMembers(prior, mine);
    assert RulesOf(started.table, tab) == Upsert(prior, mine);
  }

  // It may therefore discard a rule that another caller stored successfully in between: a caller that
  // opened the tab and then fails takes the tab's whole list with it.
  lemma RollbackDiscardsOthers(tab: string, mine: Rule, theirs: Rule)
    requires Validated(mine) && Validated(theirs) && mine.pattern != theirs.pattern
    ensures exists s :: OtherRuleStored(s, tab, mine, theirs) && tab !in Apply(s, ChromeFailed(0)).table
  {
    hide Validated;
    var s1, s2 := BothWaiting(tab, mine, theirs);
    var s3 := Apply(s2, ChromeEnabled(1));
    ThreeSteps(INITIAL, InsertRule(0, tab, mine), InsertRule(1, tab, theirs), ChromeEnabled(1), s1, s2, s3);
    assert OtherRuleStored(s3, tab, mine, theirs);
    assert Apply(s3, ChromeFailed(0)).table == s3.table - {tab};
  }

  // Caller 0 opened the tab and still waits for Chrome; caller 1 has added its rule and returned.
  ghost predicate OtherRuleStored(s: State, tab: string, mine: Rule, theirs: Rule) {
    && Validated(mine) && Validated(theirs)
    && Run(INITIAL, [InsertRule(0, tab, mine), InsertRule(1, tab, theirs), ChromeEnabled(1)], s)
    && tab in s.table && s.table[tab].rules == [mine, theirs] && s.table[tab].fetchEnabled
    && 1 !in s.callers
    && Enabled(s, ChromeFailed(0))
  }

  lemma ThreeSteps(s0: State, a: Action, b: Action, c: Action, s1: State, s2: State, s3: State)
    requires Enabled(s0, a) && s1 == Apply(s0, a)
    requires Enabled(s1, b) && s2 == Apply(s1, b)
    requires Enabled(s2, c) && s3 == Apply(s2, c)
    ensures Run(s0, [a, b, c], s3)
  {
    assert Run(s3, [], s3);
    assert [c][1..] == [];
    assert Run(s2, [c], s3);
    assert [b, c][1..] == [c];
    assert Run(s1, [b, c], s3);
    assert [a, b, c][1..] == [b, c];
  }

  // ---------------------------------------------------------------- whether interception is on record

  predicate AwaitedBy(s: State, tab: string, c: nat) {
    c in s.callers && s.callers[c].AwaitingChrome? && s.callers[c].tab == tab
  }

  ghost predicate Awaited(s: State, tab: string) {
    exists c :: AwaitedBy(s, tab, c)
  }

  // The tab's rules are stored but interception is recorded as off, and nobody is about to switch it on:
  // a removal will not switch it off in Chrome.
  ghost predicate FlagLost(s: State, tab: string) {
    tab in s.table && !s.table[tab].fetchEnabled && !Awaited(s, tab)
  }

  // Whoever waits saw the flag off when it inserted its rule.
  ghost predicate TicketsAreOff(s: State) {
    forall c :: c in s.callers && s.callers[c].AwaitingChrome? ==> !s.callers[c].ticket.priorFetch
  }

  // The step that loses the flag: the failing AddRule of a caller that had not created the entry, while no
  // other caller waits for the tab.
  ghost predicate LosesFlag(s: State, a: Action, tab: string)
    requires Enabled(s, a)
  {
    && a.ChromeFailed? && s.callers[a.caller].tab == tab && tab in s.table && !s.callers[a.caller].ticket.isNew
    && forall c :: AwaitedBy(s, tab, c) ==> c == a.caller
  }

  // The step that finds it again: any AddRule on the tab that gets past the limit starts waiting.
  predicate FindsFlag(s: State, a: Action, tab: string)
    requires Enabled(s, a)
  {
    (a.InsertRule? && a.tab == tab && Insert(s.table, tab, a.rule, s.nextListener).Inserted?) || RemovesEntry(s, a, tab)
  }

  predicate RemovesEntry(s: State, a: Action, tab: string)
    requires Enabled(s, a)
  {
    tab in s.table && tab !in Apply(s, a).table
  }

  lemma AwaitedByOthers(s: State, a: Action, tab: string, c: nat)
    requires Enabled(s, a) && c != a.caller
    ensures AwaitedBy(s, tab, c) <==> AwaitedBy(Apply(s, a), tab, c)
  {
  }

  lemma InsertWaits(s: State, a: Action, tab: string)
    requires Inv(s) && Enabled(s, a) && a.InsertRule? && a.tab == tab
    requires Insert(s.table, tab, a.rule, s.nextListener).Inserted?
    ensures tab in Apply(s, a).table && (Apply(s, a).table[tab].fetchEnabled || Awaited(Apply(s, a), tab))
  {
    if !EntryOrEmpty(s.table, tab).fetchEnabled {
      assert AwaitedBy(Apply(s, a), tab, a.caller);
    }
  }

  // What one step does to a lost flag: only those steps lose and find it.
  lemma FlagIsLostExactly(s: State, a: Action, tab: string)
    requires Inv(s) && TicketsAreOff(s) && Enabled(s, a)
    ensures TicketsAreOff(Apply(s, a))
    ensures !FlagLost(s, tab) ==> (FlagLost(Apply(s, a), tab) <==> LosesFlag(s, a, tab))
    ensures FlagLost(s, tab) ==> (FlagLost(Apply(s, a), tab) <==> !FindsFlag(s, a, tab))
  {
    var s' := Apply(s, a);
    forall c | c != a.caller ensures AwaitedBy(s, tab, c) <==> AwaitedBy(s', tab, c) {
      AwaitedByOthers(s, a, tab, c);
    }
    if a.InsertRule? && a.tab == tab && Insert(s.table, tab, a.rule, s.nextListener).Inserted? {
      InsertWaits(s, a, tab);
    } else {
      OtherSteps(s, a, tab);
      if c :| AwaitedBy(s', tab, c) {
        assert AwaitedBy(s, tab, c);
      }
      if c :| AwaitedBy(s, tab, c) && c != a.caller {
        assert AwaitedBy(s', tab, c);
      }
      if AwaitedBy(s, tab, a.caller) {
        assert Awaited(s, tab);
      }
    }
  }

  lemma OtherSteps(s: State, a: Action, tab: string)
    requires Inv(s) && TicketsAreOff(s) && Enabled(s, a)
    requires !(a.InsertRule? && a.tab == tab && Insert(s.table, tab, a.rule, s.nextListener).Inserted?)
    ensures !AwaitedBy(s, tab, a.caller) ==> !AwaitedBy(Apply(s, a), tab, a.caller)
    ensures tab in Apply(s, a).table ==> tab in s.table
    ensures tab in Apply(s, a).table ==>
              Apply(s, a).table[tab].fetchEnabled
              == if a.ChromeEnabled? && s.callers[a.caller].tab == tab then true
                 else if a.ChromeFailed? && s.callers[a.caller].tab == tab then false
                 else s.table[tab].fetchEnabled
    ensures AwaitedBy(Apply(s, a), tab, a.caller) ==> AwaitedBy(s, tab, a.caller) && !a.ChromeEnabled? && !a.ChromeFailed?
  {
  }

  // A run in which no step loses the tab's flag.
  ghost predicate KeepsFlag(s: State, actions: seq<Action>, end: State, tab: string)
    decreases |actions|
  {
    if actions == [] then end == s
    else
      && Enabled(s, actions[0]) && !LosesFlag(s, actions[0], tab)
      && KeepsFlag(Apply(s, actions[0]), actions[1..], end, tab)
  }

  lemma {:induction false} FlagStays(s: State, actions: seq<Action>, end: State, tab: string)
    requires Inv(s) && TicketsAreOff(s) && !FlagLost(s, tab) && KeepsFlag(s, actions, end, tab)
    ensures !FlagLost(end, tab)
    decreases |actions|
  {
    if actions != [] {
      StepKeepsInv(s, actions[0]);
      FlagIsLostExactly(s, actions[0], tab);
      FlagStays(Apply(s, actions[0]), actions[1..], end, tab);
    }
  }

  // Without such a step, once no operation is under way interception is on record for every tab with rules.
  lemma QuiescentTabsAreEnabled(actions: seq<Action>, s: State, tab: string)
    requires KeepsFlag(INITIAL, actions, s, tab) && s.callers == map[] && tab in s.table
    ensures s.table[tab].fetchEnabled
  {
    InitialInv();
    FlagStays(INITIAL, actions, s, tab);
    assert !Awaited(s, tab);
  }

  // With it, not: two callers insert, the first switches interception on, the second fails and records it
  // as off again.
  lemma FlagCanBeLost(tab: string, mine: Rule, theirs: Rule)
    requires Validated(mine) && Validated(theirs) && mine.pattern != theirs.pattern
    ensures exists s :: FlagLostAfter(s, tab, mine, theirs)
  {
    hide Validated;
    var s1, s2 := BothWaiting(tab, mine, theirs);
    var s3 := Apply(s2, ChromeEnabled(0));
    var s4 := Apply(s3, ChromeFailed(1));
    assert s4.callers == map[];
    ThreeSteps(s1, InsertRule(1, tab, theirs), ChromeEnabled(0), ChromeFailed(1), s2, s3, s4);
    FirstStep(INITIAL, InsertRule(0, tab, mine), [InsertRule(1, tab, theirs), ChromeEnabled(0), ChromeFailed(1)], s4);
    assert FlagLostAfter(s4, tab, mine, theirs);
  }

  // Caller 0 has opened the tab and caller 1 has added its rule; both wait for Chrome.
  lemma BothWaiting(tab: string, mine: Rule, theirs: Rule) returns (s1: State, s2: State)
    requires Validated(mine) && Validated(theirs) && mine.pattern != theirs.pattern
    ensures s1 == Apply(INITIAL, InsertRule(0, tab, mine)) && s2 == Apply(s1, InsertRule(1, tab, theirs))
    ensures Enabled(s1, InsertRule(1, tab, theirs))
    ensures s2.table == map[tab := Entry([mine, theirs], Some(0), false)]
    ensures s2.callers == map[0 := AwaitingChrome(tab, Ticket(true, true, true, [], None, false)),
                              1 := AwaitingChrome(tab, Ticket(false, false, true, [mine], Some(0), false))]
  {
    hide Validated;
    s1 := Apply(INITIAL, InsertRule(0, tab, mine));
    assert Patterns([]) == [];
    assert s1.table == map[tab := Entry([mine], Some(0), false)];
    TwoRules(tab, mine, theirs);
    s2 := Apply(s1, InsertRule(1, tab, theirs));
  }

  ghost predicate FlagLostAfter(s: State, tab: string, mine: Rule, theirs: Rule) {
    && Validated(mine) && Validated(theirs)
    && Run(INITIAL, [InsertRule(0, tab, mine)] + [InsertRule(1, tab, theirs), ChromeEnabled(0), ChromeFailed(1)], s)
    && s.callers == map[] && FlagLost(s, tab)
  }

  lemma FirstStep(s: State, a: Action, actions: seq<Action>, end: State)
    requires Enabled(s, a) && Run(Apply(s, a), actions, end)
    ensures Run(s, [a] + actions, end)
  {
    assert ([a] + actions)[1..] == actions;
  }

  lemma TwoRules(tab: string, mine: Rule, theirs: Rule)
    requires mine.pattern != theirs.pattern
    ensures var t := map[tab := Entry([mine], Some(0), false)];
            && Insert(t, tab, theirs, 1).Inserted?
            && Insert(t, tab, theirs, 1).table == map[tab := Entry([mine, theirs], Some(0), false)]
            && Insert(t, tab, theirs, 1).ticket == Ticket(false, false, true, [mine], Some(0), false)
  {
    UpsertByIndex([mine], theirs, 1);
    assert Patterns([mine]) == [mine.pattern];
    assert Upsert([mine], theirs) == [mine, theirs];
  }
}

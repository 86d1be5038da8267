// RouteManager of internal/bridge/route.go, run one operation at a time. Whether Chrome accepts
// fetch.Enable is the `enableSucceeds` input.

module RouteManagement {
  import opened GoText
  import Glob
  import opened RouteRules
  import opened RouteTable

  datatype AddOutcome = Added | Invalid(error: RuleError) | Full | EnableFailed

  // Between operations every tab on record has rules, a listener of its own and interception enabled.
  ghost predicate Settled(t: Table, nextListener: nat, cancelled: set<nat>) {
    && (forall tab :: tab in t ==>
          && GoodRules(t[tab].rules)
          && t[tab].fetchEnabled
          && t[tab].listener.Some?
          && t[tab].listener.value < nextListener
          && t[tab].listener.value !in cancelled)
    && (forall a, b :: a in t && b in t && a != b ==> t[a].listener != t[b].listener)
    && (forall l :: l in cancelled ==> l < nextListener)
  }

  lemma PutSettles(t: Table, tab: string, e: Entry, n: nat, n': nat, cancelled: set<nat>)
    requires Settled(t, n, cancelled) && n <= n'
    requires GoodRules(e.rules) && e.fetchEnabled && e.listener.Some?
    requires if tab in t then e.listener == t[tab].listener else n <= e.listener.value < n'
    ensures Settled(t[tab := e], n', cancelled)
  {
  }

  // Insertion into a settled table has to switch interception on exactly for a new tab.
  lemma InsertTicket(t: Table, tab: string, rule: Rule, n: nat, cancelled: set<nat>)
    requires Settled(t, n, cancelled)
    requires Insert(t, tab, rule, n).Inserted?
    ensures var k := Insert(t, tab, rule, n).ticket;
            && k.needEnable == k.registered == k.isNew == (tab !in t)
            && (k.isNew ==> Rollback(Insert(t, tab, rule, n).table, tab, k) == (t, Some(n)))
            && (!k.isNew ==> Enable(Insert(t, tab, rule, n).table, tab) == Insert(t, tab, rule, n).table)
    ensures var e := EntryOrEmpty(t, tab);
            Enable(Insert(t, tab, rule, n).table, tab)
            == t[tab := Entry(Upsert(e.rules, rule), if tab in t then e.listener else Some(n), true)]
  {
    var added := Insert(t, tab, rule, n).table;
    if tab !in t {
      assert added - {tab} == t;
    }
  }

  // With interception on, the table with the accepted rule is settled again.
  lemma InsertSettles(t: Table, tab: string, rule: Rule, n: nat, cancelled: set<nat>)
    requires Settled(t, n, cancelled) && Validated(rule)
    requires Insert(t, tab, rule, n).Inserted?
    ensures Settled(Enable(Insert(t, tab, rule, n).table, tab), n + if tab in t then 0 else 1, cancelled)
  {
    var e := EntryOrEmpty(t, tab);
    UpsertGood(e.rules, rule);
    var on := Enable(Insert(t, tab, rule, n).table, tab);
    assert on == t[tab := on[tab]];
    PutSettles(t, tab, on[tab], n, n + if tab in t then 0 else 1, cancelled);
  }

  // Taking one tab out, cancelling its listener, leaves the rest settled.
  lemma DropSettles(t: Table, tab: string, n: nat, cancelled: set<nat>)
    requires Settled(t, n, cancelled) && tab in t
    ensures Settled(t - {tab}, n, cancelled + {t[tab].listener.value})
  {
  }

  lemma KeepSettles(t: Table, tab: string, rules: seq<Rule>, n: nat, cancelled: set<nat>)
    requires Settled(t, n, cancelled) && tab in t && GoodRules(rules)
    ensures Settled(t[tab := t[tab].(rules := rules)], n, cancelled)
  {
  }

  // `found` is the earliest rule of the list that applies, or nothing if none does.
  ghost predicate FirstApplying(rules: seq<Rule>, url: string, resourceType: string, httpMethod: string, found: Option<Rule>) {
    match found
    case None => forall j :: 0 <= j < |rules| ==> !Applies(rules[j], url, resourceType, httpMethod)
    case Some(r) =>
      exists i :: 0 <= i < |rules| && rules[i] == r && Applies(rules[i], url, resourceType, httpMethod)
        && forall j :: 0 <= j < i ==> !Applies(rules[j], url, resourceType, httpMethod)
  }

  class RouteManager {
    var perTab: Table
    var nextListener: nat
    var cancelled: set<nat>

    ghost predicate Valid()
      reads this
    {
      Settled(perTab, nextListener, cancelled)
    }

    constructor ()
      ensures Valid() && perTab == map[]
    {
      perTab, nextListener, cancelled := map[], 0, {};
    }

    // The first locked section of AddRule.
    method InsertSection(tab: string, rule: Rule) returns (ticket: Option<Ticket>)
      modifies this
      ensures match Insert(old(perTab), tab, rule, old(nextListener))
              case TooManyRules => ticket == None && perTab == old(perTab)
              case Inserted(t, k) => ticket == Some(k) && perTab == t
      ensures nextListener == old(nextListener) + if ticket.Some? && ticket.value.registered then 1 else 0
      ensures cancelled == old(cancelled)
    {
      var isNew := tab !in perTab;
      var state := EntryOrEmpty(perTab, tab);
      var rules := state.rules;
      var replaced, i := false, 0;
      while i < |state.rules| && !replaced
        invariant 0 <= i <= |state.rules|
        invariant !replaced ==> rules == state.rules && forall j :: 0 <= j < i ==> rules[j].pattern != rule.pattern
        invariant unchanged(this)
        invariant replaced ==> rule.pattern in Patterns(state.rules) && rules == Upsert(state.rules, rule)
        decreases |state.rules| - i, !replaced
      {
        if state.rules[i].pattern == rule.pattern {
          UpsertByIndex(state.rules, rule, i);
          assert Patterns(state.rules)[i] == rule.pattern;
          rules := rules[i := rule];
          replaced := true;
        } else {
          i := i + 1;
        }
      }
      if !replaced {
        UpsertByIndex(state.rules, rule, |state.rules|);
        if |rules| >= MAX_RULES_PER_TAB {
          return None;
        }
        rules := rules + [rule];
      }
      var register := state.listener.None?;
      var listener := state.listener;
      if register {
        listener := Some(nextListener);
        nextListener := nextListener + 1;
      }
      perTab := perTab[tab := Entry(rules, listener, state.fetchEnabled)];
      ticket := Some(Ticket(isNew, register, !state.fetchEnabled, state.rules, state.listener, state.fetchEnabled));
    }

    // The locked section of rollbackAddRule, and the cancellation after it.
    method RollbackSection(tab: string, k: Ticket)
      modifies this
      ensures var (t, l) := Rollback(old(perTab), tab, k);
              perTab == t && cancelled == old(cancelled) + if l.Some? then {l.value} else {}
      ensures nextListener == old(nextListener)
    {
      if tab !in perTab {
        return;
      }
      var s := perTab[tab];
      var newCancel: Option<nat> := None;
      if k.registered {
        newCancel := s.listener;
        s := s.(listener := k.priorListener);
      }
      s := s.(rules := k.priorRules, fetchEnabled := k.priorFetch);
      if k.isNew && |s.rules| == 0 {
        perTab := perTab - {tab};
      } else {
        perTab := perTab[tab := s];
      }
      if newCancel.Some? {
        cancelled := cancelled + {newCancel.value};
      }
    }

    // The part of AddRule after its checks: insert, and for a new tab enable interception or roll back.
    method Install(tab: string, stored: Rule, enableSucceeds: bool) returns (outcome: AddOutcome)
      requires Valid() && Validated(stored)
      modifies this
      ensures Valid()
      ensures var e := EntryOrEmpty(old(perTab), tab);
              if stored.pattern !in Patterns(e.rules) && |e.rules| >= MAX_RULES_PER_TAB then
                outcome == Full && perTab == old(perTab)
              else if tab !in old(perTab) && !enableSucceeds then
                outcome == EnableFailed && perTab == old(perTab)
              else
                var listener := if tab in old(perTab) then e.listener else Some(old(nextListener));
                outcome == Added && perTab == old(perTab)[tab := Entry(Upsert(e.rules, stored), listener, true)]
      ensures cancelled == old(cancelled) + if outcome == EnableFailed then {old(nextListener)} else {}
      ensures nextListener == old(nextListener) + if tab !in old(perTab) && (outcome == Added || outcome == EnableFailed) then 1 else 0
    {
      ghost var was, n := perTab, nextListener;
      var ticket := InsertSection(tab, stored);
      if ticket.None? {
        return Full;
      }
      InsertTicket(was, tab, stored, n, cancelled);
      InsertSettles(was, tab, stored, n, cancelled);
      if ticket.value.needEnable {
        if !enableSucceeds {
          RollbackSection(tab, ticket.value);
          return EnableFailed;
        }
        if tab in perTab {
          perTab := perTab[tab := perTab[tab].(fetchEnabled := true)];
        }
      }
      assert perTab == Enable(Insert(was, tab, stored, n).table, tab);
      return Added;
    }

    // A refused or failed AddRule leaves the table as it was; otherwise the accepted rule is put in and
    // interception is on.
    method AddRule(tab: string, rule: Rule, enableSucceeds: bool) returns (outcome: AddOutcome)
      requires Valid()
      modifies this
      ensures Valid()
      ensures outcome != Added ==> perTab == old(perTab)
      ensures outcome.Invalid? <==> Check(rule).Refused?
      ensures outcome.Invalid? ==> outcome.error == Check(rule).error
      ensures Check(rule).Accepted? ==>
                var e := EntryOrEmpty(old(perTab), tab);
                && (outcome == Full <==> |e.rules| >= MAX_RULES_PER_TAB && rule.pattern !in Patterns(e.rules))
                && (outcome == EnableFailed <==> outcome != Full && tab !in old(perTab) && !enableSucceeds)
      ensures outcome == Added ==>
                var e := EntryOrEmpty(old(perTab), tab);
                var listener := if tab in old(perTab) then e.listener else Some(old(nextListener));
                perTab == old(perTab)[tab := Entry(Upsert(e.rules, Check(rule).rule), listener, true)]
      ensures cancelled == old(cancelled) + if outcome == EnableFailed then {old(nextListener)} else {}
      ensures nextListener == old(nextListener) + if tab !in old(perTab) && (outcome == Added || outcome == EnableFailed) then 1 else 0
    {
      var checked := Check(rule);
      if checked.Refused? {
        return Invalid(checked.error);
      }
      CheckValidates(rule);
      outcome := Install(tab, checked.rule, enableSucceeds);
    }

    method Remove(tab: string, pattern: string) returns (removed: nat, routed: bool)
      requires Valid()
      modifies this
      ensures Valid()
      ensures routed <==> tab in old(perTab)
      ensures RemovesExactly(old(perTab), tab, pattern, perTab, removed)
      ensures cancelled == old(cancelled) + if routed && tab !in perTab then {old(perTab)[tab].listener.value} else {}
      ensures nextListener == old(nextListener)
    {
      RemovalIsExact(perTab, tab, pattern);
      if tab !in perTab {
        return 0, false;
      }
      routed := true;
      var state := perTab[tab];
      var kept := FilterOut(state.rules, pattern);
      RemainingShorter(state.rules, pattern);
      removed := |state.rules| - |kept|;
      if |kept| == 0 {
        DropSettles(perTab, tab, nextListener, cancelled);
        perTab := perTab - {tab};
        if state.listener.Some? {
          cancelled := cancelled + {state.listener.value};
        }
      } else {
        WithoutGood(state.rules, pattern);
        KeepSettles(perTab, tab, kept, nextListener, cancelled);
        perTab := perTab[tab := state.(rules := kept)];
      }
    }

    // The filtering loop of Remove.
    static method FilterOut(rules: seq<Rule>, pattern: string) returns (kept: seq<Rule>)
      ensures kept == Remaining(rules, pattern)
      ensures Abs(kept) == if pattern == "" then Abs([]) else Delete(Abs(rules), pattern)
      ensures forall r :: r in kept <==> r in rules && pattern != "" && r.pattern != pattern
    {
      WithoutRefinesDelete(rules, pattern);
      WithoutMembers(rules, pattern);
      kept := [];
      if pattern != "" {
        for i := 0 to |rules|
          invariant kept == Without(rules[..i], pattern)
        {
          var r := rules[i];
          assert rules[..i + 1] == rules[..i] + [r];
          WithoutAppend(rules[..i], r, pattern);
          if r.pattern == pattern {
            continue;
          }
          kept := kept + [r];
        }
        assert rules[..|rules|] == rules;
      }
    }

    method RemoveTab(tab: string)
      requires Valid()
      modifies this
      ensures Valid()
      ensures tab == "" ==> perTab == old(perTab)
      ensures tab != "" ==> perTab == old(perTab) - {tab}
      ensures cancelled == old(cancelled) + if tab != "" && tab in old(perTab) then {old(perTab)[tab].listener.value} else {}
      ensures nextListener == old(nextListener)
    {
      if tab == "" || tab !in perTab {
        return;
      }
      var listener := perTab[tab].listener;
      perTab := perTab - {tab};
      if listener.Some? {
        cancelled := cancelled + {listener.value};
      }
    }

    method List(tab: string) returns (rules: seq<Rule>)
      ensures rules == EntryOrEmpty(perTab, tab).rules
    {
      if tab !in perTab {
        return [];
      }
      rules := perTab[tab].rules;
    }

    // The first rule, in insertion order, that applies to the request.
    method Match(tab: string, url: string, resourceType: string, httpMethod: string)
        returns (rule: Option<Rule>, hasRules: bool)
      ensures hasRules <==> tab in perTab && perTab[tab].rules != []
      ensures hasRules ==> FirstApplying(perTab[tab].rules, url, resourceType, httpMethod, rule)
      ensures !hasRules ==> rule == None
    {
      if tab !in perTab || |perTab[tab].rules| == 0 {
        return None, false;
      }
      hasRules, rule := true, None;
      var rules := perTab[tab].rules;
      for i := 0 to |rules|
        invariant rule == None
        invariant forall j :: 0 <= j < i ==> !Applies(rules[j], url, resourceType, httpMethod)
      {
        var r := rules[i];
        if r.resourceType != "" && !EqualFold(r.resourceType, resourceType) {
          continue;
        }
        if r.httpMethod != "" {
          if !EqualFold(r.httpMethod, httpMethod) {
            continue;
          }
        } else if r.action == "fulfill" && httpMethod == "OPTIONS" {
          continue;
        }
        if Glob.RuleMatchesURL(r.pattern, r.compiled, url) {
          rule := Some(r);
          return;
        }
      }
    }
  }
}

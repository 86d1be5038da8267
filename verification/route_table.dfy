// The per-tab rule table of internal/bridge/route.go and the critical sections that change it. Each
// function below is what one section does while the manager's lock is held.

module RouteTable {
  import opened GoText
  import opened RouteRules

  const MAX_RULES_PER_TAB := 100

  // The listener stands for the pair listenCtx/listenCancel; listeners are numbered in creation order.
  datatype Entry = Entry(rules: seq<Rule>, listener: Option<nat>, fetchEnabled: bool)

  type Table = map<string, Entry>

  // ---------------------------------------------------------------- rule lists

  function Patterns(rules: seq<Rule>): (ps: seq<string>)
    ensures |ps| == |rules| && forall i :: 0 <= i < |rules| ==> ps[i] == rules[i].pattern
  {
    if rules == [] then [] else [rules[0].pattern] + Patterns(rules[1..])
  }

  predicate DistinctPatterns(rules: seq<Rule>) {
    forall i, j :: 0 <= i < j < |rules| ==> rules[i].pattern != rules[j].pattern
  }

  // Replace the rule with the same pattern where it stands, otherwise append.
  function Upsert(rules: seq<Rule>, rule: Rule): seq<Rule> {
    if rules == [] then [rule]
    else if rules[0].pattern == rule.pattern then [rule] + rules[1..]
    else [rules[0]] + Upsert(rules[1..], rule)
  }

  function Without(rules: seq<Rule>, pattern: string): seq<Rule> {
    if rules == [] then []
    else if rules[0].pattern == pattern then Without(rules[1..], pattern)
    else [rules[0]] + Without(rules[1..], pattern)
  }

  lemma {:induction false} UpsertByIndex(rules: seq<Rule>, rule: Rule, i: int)
    requires 0 <= i <= |rules|
    requires forall j :: 0 <= j < i ==> rules[j].pattern != rule.pattern
    requires i < |rules| ==> rules[i].pattern == rule.pattern
    ensures Upsert(rules, rule) == if i < |rules| then rules[i := rule] else rules + [rule]
  {
    if i > 0 {
      UpsertByIndex(rules[1..], rule, i - 1);
      assert rules == [rules[0]] + rules[1..];
    } else if rules != [] {
      assert rules[0 := rule] == [rule] + rules[1..];
    }
  }

  lemma {:induction false} WithoutAppend(rules: seq<Rule>, r: Rule, pattern: string)
    ensures Without(rules + [r], pattern)
         == Without(rules, pattern) + if r.pattern == pattern then [] else [r]
  {
    if rules == [] {
      assert ([] + [r])[1..] == [];
    } else {
      assert (rules + [r])[1..] == rules[1..] + [r];
      WithoutAppend(rules[1..], r, pattern);
    }
  }

  // ---------------------------------------------------------------- refinement of an ordered map

  datatype OrderedMap = OrderedMap(order: seq<string>, at: map<string, Rule>)

  function Put(m: OrderedMap, k: string, r: Rule): OrderedMap {
    OrderedMap(if k in m.order then m.order else m.order + [k], m.at[k := r])
  }

  function DropKey(keys: seq<string>, k: string): seq<string> {
    if keys == [] then [] else (if keys[0] == k then [] else [keys[0]]) + DropKey(keys[1..], k)
  }

  function Delete(m: OrderedMap, k: string): OrderedMap {
    OrderedMap(DropKey(m.order, k), m.at - {k})
  }

  function Rows(rules: seq<Rule>): map<string, Rule> {
    if rules == [] then map[] else Rows(rules[1..])[rules[0].pattern := rules[0]]
  }

  function Abs(rules: seq<Rule>): OrderedMap {
    OrderedMap(Patterns(rules), Rows(rules))
  }

  lemma {:induction false} RowsAreTheRules(rules: seq<Rule>)
    requires DistinctPatterns(rules)
    ensures forall p :: p in Rows(rules) <==> p in Patterns(rules)
    ensures forall r :: r in rules ==> Rows(rules)[r.pattern] == r
  {
    RowsHavePatterns(rules);
    if rules != [] {
      var first, rest := rules[0], rules[1..];
      RowsAreTheRules(rest);
      RowsHavePatterns(rest);
      OthersDiffer(rules);
      forall r | r in rules ensures Rows(rules)[r.pattern] == r {
        assert r == first || r in rest;
      }
    }
  }

  lemma {:induction false} RowsHavePatterns(rules: seq<Rule>)
    ensures forall p :: p in Rows(rules) <==> p in Patterns(rules)
    ensures forall r :: r in rules ==> r.pattern in Rows(rules)
  {
    if rules != [] {
      RowsHavePatterns(rules[1..]);
    }
  }

  lemma OthersDiffer(rules: seq<Rule>)
    requires DistinctPatterns(rules) && rules != []
    ensures forall r :: r in rules[1..] ==> r.pattern != rules[0].pattern
  {
  }

  lemma {:induction false} RowsAfterUpsert(rules: seq<Rule>, rule: Rule)
    ensures Rows(Upsert(rules, rule)) == Rows(rules)[rule.pattern := rule]
  {
    if rules == [] {
      assert [rule][1..] == [];
    } else {
      RowsAfterUpsert(rules[1..], rule);
      var rest := if rules[0].pattern == rule.pattern then rules[1..] else Upsert(rules[1..], rule);
      assert Upsert(rules, rule)[1..] == rest;
    }
  }

  // The index of the first rule with this pattern, or the length if there is none.
  function FirstIndex(rules: seq<Rule>, p: string): (i: nat)
    ensures i <= |rules|
    ensures forall j :: 0 <= j < i ==> rules[j].pattern != p
    ensures i < |rules| ==> rules[i].pattern == p
  {
    if rules == [] || rules[0].pattern == p then 0 else 1 + FirstIndex(rules[1..], p)
  }

  lemma PatternsAfterUpsert(rules: seq<Rule>, rule: Rule)
    ensures Patterns(Upsert(rules, rule))
         == if rule.pattern in Patterns(rules) then Patterns(rules) else Patterns(rules) + [rule.pattern]
  {
    var i := FirstIndex(rules, rule.pattern);
    UpsertByIndex(rules, rule, i);
    if i < |rules| {
      assert Patterns(rules)[i] == rule.pattern;
      assert Patterns(rules[i := rule]) == Patterns(rules);
    } else {
      assert rule.pattern !in Patterns(rules);
      assert Patterns(rules + [rule]) == Patterns(rules) + [rule.pattern];
    }
  }

  // Replacing keeps the position; a new pattern goes last; nothing else changes.
  lemma {:induction false} UpsertRefinesPut(rules: seq<Rule>, rule: Rule)
    ensures Abs(Upsert(rules, rule)) == Put(Abs(rules), rule.pattern, rule)
  {
    PatternsAfterUpsert(rules, rule);
    RowsAfterUpsert(rules, rule);
  }

  lemma {:induction false} DropKeyMembers(keys: seq<string>, k: string)
    ensures forall x :: x in DropKey(keys, k) <==> x in keys && x != k
  {
    if keys != [] {
      DropKeyMembers(keys[1..], k);
    }
  }

  // The keys that stay are in the order they were in.
  lemma {:induction false} DropKeyKeepsOrder(keys: seq<string>, k: string, i: nat, j: nat) returns (i': nat, j': nat)
    requires i < j < |DropKey(keys, k)|
    ensures i' < j' < |keys| && keys[i'] == DropKey(keys, k)[i] && keys[j'] == DropKey(keys, k)[j]
  {
    if keys[0] == k {
      i', j' := DropKeyKeepsOrder(keys[1..], k, i, j);
      i', j' := i' + 1, j' + 1;
    } else if i > 0 {
      i', j' := DropKeyKeepsOrder(keys[1..], k, i - 1, j - 1);
      i', j' := i' + 1, j' + 1;
    } else {
      var x := DropKey(keys, k)[j];
      assert DropKey(keys[1..], k)[j - 1] == x;
      DropKeyMembers(keys[1..], k);
      assert x in keys[1..];
      var n :| 0 <= n < |keys[1..]| && keys[1..][n] == x;
      i', j' := 0, n + 1;
    }
  }

  lemma {:induction false} PatternsOfWithout(rules: seq<Rule>, pattern: string)
    ensures Patterns(Without(rules, pattern)) == DropKey(Patterns(rules), pattern)
  {
    if rules != [] {
      assert Patterns(rules)[1..] == Patterns(rules[1..]);
      PatternsOfWithout(rules[1..], pattern);
    }
  }

  lemma {:induction false} RowsAfterWithout(rules: seq<Rule>, pattern: string)
    ensures Rows(Without(rules, pattern)) == Rows(rules) - {pattern}
  {
    if rules != [] {
      RowsAfterWithout(rules[1..], pattern);
      if rules[0].pattern != pattern {
        assert Without(rules, pattern)[1..] == Without(rules[1..], pattern);
      }
    }
  }

  lemma {:induction false} WithoutRefinesDelete(rules: seq<Rule>, pattern: string)
    ensures Abs(Without(rules, pattern)) == Delete(Abs(rules), pattern)
  {
    PatternsOfWithout(rules, pattern);
    RowsAfterWithout(rules, pattern);
  }

  // ---------------------------------------------------------------- well-formed lists

  predicate GoodRules(rules: seq<Rule>) {
    && 1 <= |rules| <= MAX_RULES_PER_TAB
    && (forall i :: 0 <= i < |rules| ==> Validated(rules[i]))
    && DistinctPatterns(rules)
  }

  lemma UpsertShape(rules: seq<Rule>, rule: Rule)
    requires DistinctPatterns(rules)
    ensures DistinctPatterns(Upsert(rules, rule))
    ensures |Upsert(rules, rule)| == |rules| + if rule.pattern in Patterns(rules) then 0 else 1
    ensures forall r :: r in Upsert(rules, rule) ==> r == rule || r in rules
  {
    var i := FirstIndex(rules, rule.pattern);
    UpsertByIndex(rules, rule, i);
    if i < |rules| {
      assert Patterns(rules)[i] == rule.pattern;
    }
  }

  // Whatever the list, only the rule with the same pattern can be missing afterwards.
  lemma {:induction false} UpsertMembers(rules: seq<Rule>, rule: Rule)
    ensures forall r :: r in Upsert(rules, rule) ==> r == rule || r in rules
    ensures forall r :: r in rules && r !in Upsert(rules, rule) ==> r.pattern == rule.pattern
  {
    if rules != [] && rules[0].pattern != rule.pattern {
      UpsertMembers(rules[1..], rule);
    }
  }

  lemma UpsertGood(rules: seq<Rule>, rule: Rule)
    requires rules == [] || GoodRules(rules)
    requires Validated(rule)
    ensures (rule.pattern !in Patterns(rules) && |rules| == MAX_RULES_PER_TAB) || GoodRules(Upsert(rules, rule))
  {
    UpsertShape(rules, rule);
    var after := Upsert(rules, rule);
    forall i | 0 <= i < |after| ensures Validated(after[i]) {
      assert after[i] in after;
    }
  }

  lemma {:induction false} WithoutMembers(rules: seq<Rule>, pattern: string)
    ensures |Without(rules, pattern)| <= |rules|
    ensures forall r :: r in Without(rules, pattern) <==> r in rules && r.pattern != pattern
  {
    if rules != [] {
      WithoutMembers(rules[1..], pattern);
    }
  }

  lemma {:induction false} WithoutKeepsDistinct(rules: seq<Rule>, pattern: string)
    requires DistinctPatterns(rules)
    ensures DistinctPatterns(Without(rules, pattern))
  {
    if rules != [] {
      var rest := Without(rules[1..], pattern);
      WithoutKeepsDistinct(rules[1..], pattern);
      WithoutMembers(rules[1..], pattern);
      forall i | 0 <= i < |rest| ensures rest[i].pattern != rules[0].pattern {
        assert rest[i] in rules[1..];
      }
    }
  }

  lemma WithoutGood(rules: seq<Rule>, pattern: string)
    requires GoodRules(rules)
    ensures Without(rules, pattern) == [] || GoodRules(Without(rules, pattern))
  {
    WithoutMembers(rules, pattern);
    WithoutKeepsDistinct(rules, pattern);
    var kept := Without(rules, pattern);
    forall i | 0 <= i < |kept| ensures Validated(kept[i]) {
      assert kept[i] in rules;
    }
  }

  // ---------------------------------------------------------------- the critical sections

  // What AddRule remembers for a rollback.
  datatype Ticket = Ticket(
    isNew: bool,
    registered: bool,
    needEnable: bool,
    priorRules: seq<Rule>,
    priorListener: Option<nat>,
    priorFetch: bool)

  datatype InsertResult = TooManyRules | Inserted(table: Table, ticket: Ticket)

  function EntryOrEmpty(t: Table, tab: string): Entry {
    if tab in t then t[tab] else Entry([], None, false)
  }

  // The first section of AddRule. `nextId` numbers the listener created if one is needed.
  function Insert(t: Table, tab: string, rule: Rule, nextId: nat): InsertResult {
    var e := EntryOrEmpty(t, tab);
    if rule.pattern !in Patterns(e.rules) && |e.rules| >= MAX_RULES_PER_TAB then TooManyRules
    else
      var register := e.listener.None?;
      Inserted(
        t[tab := Entry(Upsert(e.rules, rule), if register then Some(nextId) else e.listener, e.fetchEnabled)],
        Ticket(tab !in t, register, !e.fetchEnabled, e.rules, e.listener, e.fetchEnabled))
  }

  // The last section of AddRule, after fetch.Enable succeeded.
  function Enable(t: Table, tab: string): Table {
    if tab in t then t[tab := t[tab].(fetchEnabled := true)] else t
  }

  // rollbackAddRule: the restored table, and the listener the caller must then cancel.
  function Rollback(t: Table, tab: string, k: Ticket): (Table, Option<nat>) {
    if tab !in t then (t, None)
    else
      var restored := Entry(k.priorRules, if k.registered then k.priorListener else t[tab].listener, k.priorFetch);
      (if k.isNew && |k.priorRules| == 0 then t - {tab} else t[tab := restored],
       if k.registered then t[tab].listener else None)
  }

  datatype RemoveResult =
    | NotRouted
    | Kept(table: Table, removed: nat)
    | TornDown(table: Table, removed: nat, listener: Option<nat>, wasEnabled: bool)

  function Remaining(rules: seq<Rule>, pattern: string): seq<Rule> {
    if pattern == "" then [] else Without(rules, pattern)
  }

  lemma RemainingShorter(rules: seq<Rule>, pattern: string)
    ensures |Remaining(rules, pattern)| <= |rules|
  {
    WithoutMembers(rules, pattern);
  }

  // The section of Remove.
  function RemovePattern(t: Table, tab: string, pattern: string): RemoveResult {
    if tab !in t then NotRouted
    else
      var left := Remaining(t[tab].rules, pattern);
      RemainingShorter(t[tab].rules, pattern);
      var removed := |t[tab].rules| - |left|;
      if left == [] then TornDown(t - {tab}, removed, t[tab].listener, t[tab].fetchEnabled)
      else Kept(t[tab := t[tab].(rules := left)], removed)
  }

  // The rules Remove is asked to remove: those with the pattern, or all for the empty pattern.
  function Asked(rules: seq<Rule>, pattern: string): set<nat> {
    set i: nat | i < |rules| && (pattern == "" || rules[i].pattern == pattern)
  }

  // What Remove owes: of this tab's rules, as an ordered map, exactly the pattern's are gone and their
  // number is known; the tab goes with its last rule; everything else stays.
  ghost predicate RemovesExactly(was: Table, tab: string, pattern: string, now: Table, removed: nat) {
    && now - {tab} == was - {tab}
    && removed == |Asked(RulesOf(was, tab), pattern)|
    && Abs(RulesOf(now, tab)) == (if pattern == "" then Abs([]) else Delete(Abs(RulesOf(was, tab)), pattern))
    && (tab in now <==> exists r :: r in RulesOf(was, tab) && pattern != "" && r.pattern != pattern)
    && (tab in now ==> tab in was && now[tab].listener == was[tab].listener && now[tab].fetchEnabled == was[tab].fetchEnabled)
  }

  lemma {:induction false} WithoutCounts(rules: seq<Rule>, pattern: string)
    requires pattern != ""
    ensures |Without(rules, pattern)| + |Asked(rules, pattern)| == |rules|
  {
    hide Without;
    if rules == [] {
      assert Asked(rules, pattern) == {};
      WithoutMembers(rules, pattern);
    } else {
      var front, last := rules[..|rules| - 1], rules[|rules| - 1];
      assert rules == front + [last];
      WithoutCounts(front, pattern);
      WithoutAppend(front, last, pattern);
      if last.pattern == pattern {
        assert Asked(rules, pattern) == Asked(front, pattern) + {|front|};
      } else {
        assert Asked(rules, pattern) == Asked(front, pattern);
      }
    }
  }

  lemma {:induction false} AllAreAsked(rules: seq<Rule>)
    ensures |Asked(rules, "")| == |rules|
  {
    if rules == [] {
      assert Asked(rules, "") == {};
    } else {
      var front := rules[..|rules| - 1];
      AllAreAsked(front);
      assert Asked(rules, "") == Asked(front, "") + {|front|};
    }
  }

  lemma RemovalIsExact(t: Table, tab: string, pattern: string)
    ensures match RemovePattern(t, tab, pattern)
            case NotRouted => RemovesExactly(t, tab, pattern, t, 0)
            case Kept(t', n) => RemovesExactly(t, tab, pattern, t', n)
            case TornDown(t', n, l, _) => RemovesExactly(t, tab, pattern, t', n) && tab in t && l == t[tab].listener
  {
    var rules := RulesOf(t, tab);
    if pattern == "" {
      AllAreAsked(rules);
    } else {
      WithoutCounts(rules, pattern);
      WithoutRefinesDelete(rules, pattern);
      WithoutMembers(rules, pattern);
    }
    hide Without, Abs, Delete, Asked;
    var left := Remaining(rules, pattern);
    if tab in t {
      assert left != [] ==> left[0] in left;
      assert t[tab := t[tab].(rules := left)] - {tab} == t - {tab};
    } else {
      assert t - {tab} == t;
    }
  }

  // The section of RemoveTab.
  function DropTab(t: Table, tab: string): (Table, Option<nat>) {
    if tab in t then (t - {tab}, t[tab].listener) else (t, None)
  }

  // A rollback right after its own insertion undoes it completely. In general it gives back the table
  // before the insertion exactly when the rest of the table is as it was, the tab is still on record if it
  // was before, and then has its former listener.
  lemma RollbackUndoes(t: Table, tab: string, rule: Rule, nextId: nat, now: Table)
    requires Insert(t, tab, rule, nextId).Inserted?
    requires tab in t ==> t[tab].rules != []
    ensures var k := Insert(t, tab, rule, nextId).ticket;
            Rollback(now, tab, k).0 == t
            <==> && now - {tab} == t - {tab}
                 && (tab in t ==> tab in now)
                 && (tab in t && t[tab].listener.Some? ==> now[tab].listener == t[tab].listener)
  {
    var k := Insert(t, tab, rule, nextId).ticket;
    var back := Rollback(now, tab, k).0;
    assert back - {tab} == now - {tab};
    if now - {tab} == t - {tab} && (tab in t ==> tab in now && (t[tab].listener.Some? ==> now[tab].listener == t[tab].listener)) {
      if tab in t {
        assert back[tab] == t[tab];
        assert back == (back - {tab})[tab := back[tab]];
        assert t == (t - {tab})[tab := t[tab]];
      } else {
        assert back == t - {tab} == t;
      }
    }
  }

  function RulesOf(t: Table, tab: string): seq<Rule> {
    EntryOrEmpty(t, tab).rules
  }

  // What a rollback does to rules: the other tabs keep theirs, and this tab, if it is still on record, has
  // exactly the rules the ticket recorded.
  lemma RollbackRules(now: Table, tab: string, k: Ticket, other: string)
    ensures RulesOf(Rollback(now, tab, k).0, other)
         == if other == tab && tab in now then k.priorRules else RulesOf(now, other)
  {
  }
}

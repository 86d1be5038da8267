// The tab manager of internal/bridge (tab_manager.go, tab_cleanup.go, tab_adopt.go, tab_lookup.go and
// tab_state.go), one operation at a time. Tab IDs are Chrome's target IDs, which are never empty; what
// Chrome answers is an input of each operation, and so is the clock. The time 0 is Go's zero time.

module TabManagement {
  import opened GoText

  datatype Tab = Tab(hasContext: bool, cdpId: string, createdAt: int, lastUsed: int)

  // The maps kept per tab, and the current tab ("" for none). Caches and scopes are opaque numbers.
  datatype Tabs = Tabs(
    tabs: map<string, Tab>,
    accessed: set<string>,
    snapshots: map<string, nat>,
    frameScope: map<string, nat>,
    current: string)

  datatype Policy = CloseOldest | Reject | CloseLRU

  // ---------------------------------------------------------------- what the operations do

  predicate Coherent(v: Tabs) {
    v.accessed <= v.tabs.Keys && (v.current == "" || v.current in v.tabs) && "" !in v.tabs
  }

  function Drop(v: Tabs, id: string): Tabs {
    Tabs(v.tabs - {id}, v.accessed - {id}, v.snapshots - {id}, v.frameScope - {id},
         if v.current == id then "" else v.current)
  }

  function Track(v: Tabs, id: string, cdpId: string, now: int): Tabs {
    v.(tabs := v.tabs[id := Tab(true, cdpId, now, now)], accessed := v.accessed + {id}, current := id)
  }

  // markAccessed
  function Touch(v: Tabs, id: string, now: int): Tabs {
    v.(tabs := if id in v.tabs then v.tabs[id := v.tabs[id].(lastUsed := now)] else v.tabs,
       accessed := v.accessed + {id},
       current := id)
  }

  function UseTime(t: Tab): int {
    if t.lastUsed == 0 then t.createdAt else t.lastUsed
  }

  predicate IsOldest(v: Tabs, id: string) {
    id in v.tabs && forall x :: x in v.tabs ==> v.tabs[id].createdAt <= v.tabs[x].createdAt
  }

  predicate IsLeastRecentlyUsed(v: Tabs, id: string) {
    id in v.tabs && forall x :: x in v.tabs ==> UseTime(v.tabs[id]) <= UseTime(v.tabs[x])
  }

  predicate Evictable(v: Tabs, policy: Policy, id: string) {
    match policy
    case Reject => false
    case CloseOldest => IsOldest(v, id)
    case CloseLRU => IsLeastRecentlyUsed(v, id)
  }

  // The maps differ at most in what they have for this tab.
  predicate SameElsewhere<V(==)>(before: map<string, V>, after: map<string, V>, id: string) {
    && before.Keys - {id} == after.Keys - {id}
    && forall x :: x in before && x in after && x != id ==> after[x] == before[x]
  }

  // No trace of the tab is left, and no other tab is touched.
  lemma DropErases(v: Tabs, id: string)
    requires id != ""
    ensures var w := Drop(v, id);
            && id !in w.tabs && id !in w.accessed && id !in w.snapshots && id !in w.frameScope && w.current != id
            && SameElsewhere(v.tabs, w.tabs, id)
            && SameElsewhere(v.snapshots, w.snapshots, id)
            && SameElsewhere(v.frameScope, w.frameScope, id)
            && v.accessed - {id} == w.accessed
            && (v.current != id ==> w.current == v.current)
  {
  }

  // A tab that is entered is on record with its target and the time, and becomes the current one; a tab that
  // is used gets the time of its use and becomes the current one. Other tabs stay as they are.
  lemma EntryAndUse(v: Tabs, id: string, cdpId: string, now: int)
    ensures var w := Track(v, id, cdpId, now);
            && id in w.tabs && w.tabs[id] == Tab(true, cdpId, now, now) && w.current == id && w.accessed == v.accessed + {id}
            && SameElsewhere(v.tabs, w.tabs, id) && w.snapshots == v.snapshots && w.frameScope == v.frameScope
    ensures var w := Touch(v, id, now);
            && w.current == id && w.accessed == v.accessed + {id}
            && w.tabs.Keys == v.tabs.Keys && (id in v.tabs ==> w.tabs[id] == v.tabs[id].(lastUsed := now))
            && SameElsewhere(v.tabs, w.tabs, id) && w.snapshots == v.snapshots && w.frameScope == v.frameScope
  {
  }

  lemma DropIsCoherent(v: Tabs, id: string)
    requires Coherent(v)
    ensures Coherent(Drop(v, id))
    ensures |Drop(v, id).tabs| == |v.tabs| - if id in v.tabs then 1 else 0
  {
  }

  lemma TrackIsCoherent(v: Tabs, id: string, cdpId: string, now: int)
    requires Coherent(v) && id != ""
    ensures Coherent(Track(v, id, cdpId, now))
    ensures |Track(v, id, cdpId, now).tabs| <= |v.tabs| + 1
  {
  }

  function EffectiveCDP(id: string, t: Tab): string {
    if t.cdpId == "" then id else t.cdpId
  }

  // The tracked tab a cleanup call means: the ID itself if tracked, otherwise any with that target.
  predicate Resolves(v: Tabs, tabID: string, cdpId: string, id: string) {
    id in v.tabs &&
    if tabID in v.tabs then id == tabID
    else cdpId != "" && (id == cdpId || v.tabs[id].cdpId == cdpId)
  }

  // ---------------------------------------------------------------- the effects operations have

  // Closing, evicting and purging forget a tab.
  datatype Effect =
    | Nothing
    | Forget(id: string)
    | Open(evicted: string, id: string, now: int)
    | Use(id: string, now: int)

  // Opening with the limit enforced: something evictable goes first exactly when the table is full.
  predicate Allowed(v: Tabs, e: Effect, max: int, policy: Policy) {
    match e
    case Nothing => true
    case Forget(id) => id != ""
    case Open(evicted, id, _) =>
      id != "" && if |v.tabs| < max then evicted == "" else Evictable(v, policy, evicted)
    case Use(id, _) => id in v.tabs
  }

  function Effected(v: Tabs, e: Effect): Tabs {
    match e
    case Nothing => v
    case Forget(id) => Drop(v, id)
    case Open(evicted, id, now) => Track(if evicted == "" then v else Drop(v, evicted), id, id, now)
    case Use(id, now) => Touch(v, id, now)
  }

  // One operation under an enforced limit leads from v to w.
  ghost predicate Leads(v: Tabs, w: Tabs, max: int, policy: Policy) {
    exists e :: Allowed(v, e, max, policy) && w == Effected(v, e)
  }

  // ---------------------------------------------------------------- the manager

  // Chrome's answers to one operation: the number of open pages (none if the listing failed), whether
  // the browser can be reached for closing and closes the target, the ID of the target it would create, and
  // whether creating it and loading the page succeeds.
  datatype Chrome = Chrome(pages: int, reachable: bool, closes: bool, created: string, opens: bool)

  class TabManager {
    const maxTabs: int
    const policy: Policy
    var tabs: map<string, Tab>
    var accessed: set<string>
    var snapshots: map<string, nat>
    var frameScope: map<string, nat>
    var currentTab: string

    ghost function View(): Tabs
      reads this
    {
      Tabs(tabs, accessed, snapshots, frameScope, currentTab)
    }

    ghost predicate Valid()
      reads this
    {
      Coherent(View())
    }

    constructor (max: int, p: Policy)
      ensures Valid() && tabs == map[] && maxTabs == max && policy == p
    {
      maxTabs, policy := max, p;
      tabs, accessed, snapshots, frameScope, currentTab := map[], {}, map[], map[], "";
    }

    // The search loop of closeOldestTab, over the map in any order.
    method FindOldest() returns (oldest: string)
      requires Valid()
      ensures if tabs == map[] then oldest == "" else IsOldest(View(), oldest)
    {
      oldest := "";
      var oldestTime := 0;
      var left := tabs.Keys;
      while left != {}
        invariant left <= tabs.Keys
        invariant oldest == "" ==> left == tabs.Keys
        invariant oldest != "" ==>
                    && oldest in tabs.Keys - left && oldestTime == tabs[oldest].createdAt
                    && forall x :: x in tabs && x !in left ==> oldestTime <= tabs[x].createdAt
        decreases left
      {
        var id :| id in left;
        left := left - {id};
        if oldest == "" || tabs[id].createdAt < oldestTime {
          oldest, oldestTime := id, tabs[id].createdAt;
        }
      }
    }

    // The search loop of closeLRUTab.
    method FindLRU() returns (lru: string)
      requires Valid()
      ensures if tabs == map[] then lru == "" else IsLeastRecentlyUsed(View(), lru)
    {
      lru := "";
      var lruTime := 0;
      var left := tabs.Keys;
      while left != {}
        invariant left <= tabs.Keys
        invariant lru == "" ==> left == tabs.Keys
        invariant lru != "" ==>
                    && lru in tabs.Keys - left && lruTime == UseTime(tabs[lru])
                    && forall x :: x in tabs && x !in left ==> lruTime <= UseTime(tabs[x])
        decreases left
      {
        var id :| id in left;
        left := left - {id};
        var t := tabs[id].lastUsed;
        if t == 0 {
          t := tabs[id].createdAt;
        }
        if lru == "" || t < lruTime {
          lru, lruTime := id, t;
        }
      }
    }

    // lookupTrackedTabForCleanup
    method Lookup(tabID: string, cdpId: string) returns (found: bool, id: string)
      ensures found ==> Resolves(View(), tabID, cdpId, id)
      ensures !found ==> forall x :: !Resolves(View(), tabID, cdpId, x)
    {
      if tabID in tabs {
        return true, tabID;
      }
      if cdpId == "" {
        return false, "";
      }
      var left := tabs.Keys;
      while left != {}
        invariant left <= tabs.Keys
        invariant forall x :: x in tabs && x !in left ==> x != cdpId && EffectiveCDP(x, tabs[x]) != cdpId
        decreases left
      {
        id :| id in left;
        left := left - {id};
        if id == cdpId || EffectiveCDP(id, tabs[id]) == cdpId {
          return true, id;
        }
      }
      return false, "";
    }

    // purgeTrackedTabState
    method Purge(tabID: string, cdpId: string) returns (found: bool, id: string)
      requires Valid()
      modifies this
      ensures Valid()
      ensures found ==> Resolves(old(View()), tabID, cdpId, id) && View() == Drop(old(View()), id)
      ensures !found ==> View() == old(View()) && forall x :: !Resolves(old(View()), tabID, cdpId, x)
      ensures Leads(old(View()), View(), maxTabs, policy)
    {
      found, id := Lookup(tabID, cdpId);
      assert View() == Effected(View(), Nothing) && Allowed(View(), Nothing, maxTabs, policy);
      if !found {
        return;
      }
      ghost var before := View();
      tabs := tabs - {id};
      snapshots := snapshots - {id};
      frameScope := frameScope - {id};
      accessed := accessed - {id};
      if currentTab == id {
        currentTab := "";
      }
      assert View() == Effected(before, Forget(id)) && Allowed(before, Forget(id), maxTabs, policy);
    }

    // Refused when it would close the last page; a tracked tab is forgotten even if Chrome cannot close it.
    method CloseTab(tabID: string, chrome: Chrome) returns (ok: bool, closed: string)
      requires Valid()
      modifies this
      ensures Valid()
      ensures chrome.pages <= 1 ==> !ok && View() == old(View())
      ensures chrome.pages > 1 && tabID in old(tabs) ==> ok && closed == tabID && View() == Drop(old(View()), tabID)
      ensures chrome.pages > 1 && tabID !in old(tabs) ==> (ok <==> chrome.reachable && chrome.closes)
      ensures !ok ==> View() == old(View())
      ensures ok && tabID !in old(tabs) ==>
                if exists x :: Resolves(old(View()), tabID, tabID, x)
                then Resolves(old(View()), tabID, tabID, closed) && View() == Drop(old(View()), closed)
                else View() == old(View())
      ensures Leads(old(View()), View(), maxTabs, policy)
    {
      assert View() == Effected(View(), Nothing) && Allowed(View(), Nothing, maxTabs, policy);
      if chrome.pages <= 1 {
        return false, "";
      }
      var tracked := tabID in tabs;
      var cdpTarget := tabID;
      if tracked && tabs[tabID].cdpId != "" {
        cdpTarget := tabs[tabID].cdpId;
      }
      assert tracked ==> Resolves(View(), tabID, cdpTarget, tabID);
      var found;
      if !chrome.reachable {
        if !tracked {
          return false, "";
        }
        found, closed := Purge(tabID, cdpTarget);
        return true, closed;
      }
      if !chrome.closes && !tracked {
        return false, "";
      }
      found, closed := Purge(tabID, cdpTarget);
      ok := true;
    }

    // The limit check of CreateTab and enforceAdoptTabLimit; `evicted` is the tab that had to go.
    method MakeRoom(chrome: Chrome) returns (ok: bool, evicted: string)
      requires Valid()
      modifies this
      ensures Valid()
      ensures maxTabs <= 0 || |old(tabs)| < maxTabs ==> ok && evicted == "" && View() == old(View())
      ensures maxTabs > 0 && |old(tabs)| >= maxTabs ==>
                && (ok <==> policy != Reject && chrome.pages > 1)
                && (ok ==> Evictable(old(View()), policy, evicted) && View() == Drop(old(View()), evicted))
                && (!ok ==> View() == old(View()))
      ensures ok && maxTabs > 0 ==> |tabs| < maxTabs || |tabs| < |old(tabs)|
    {
      evicted := "";
      if maxTabs <= 0 || |tabs| < maxTabs {
        return true, "";
      }
      match policy {
        case Reject => return false, "";
        case CloseOldest => evicted := FindOldest();
        case CloseLRU => evicted := FindLRU();
      }
      if evicted == "" {
        return false, "";
      }
      DropIsCoherent(View(), evicted);
      ok, evicted := CloseTab(evicted, chrome);
    }

    // The insertion both CreateTab and adoptExistingTarget end with.
    method Insert(id: string, now: int)
      requires Valid() && id != ""
      modifies this
      ensures Valid() && View() == Track(old(View()), id, id, now)
      ensures |tabs| <= |old(tabs)| + 1
    {
      TrackIsCoherent(View(), id, id, now);
      tabs := tabs[id := Tab(true, id, now, now)];
      accessed := accessed + {id};
      currentTab := id;
    }

    method CreateTab(chrome: Chrome, now: int) returns (ok: bool, evicted: string)
      requires Valid() && chrome.created != ""
      modifies this
      ensures Valid()
      ensures ok ==> var v := if evicted == "" then old(View()) else Drop(old(View()), evicted);
                     View() == Track(v, chrome.created, chrome.created, now)
      ensures !ok ==> View() == if evicted == "" then old(View()) else Drop(old(View()), evicted)
      ensures evicted == "" <==> maxTabs <= 0 || |old(tabs)| < maxTabs || policy == Reject || chrome.pages <= 1
      ensures evicted != "" ==> Evictable(old(View()), policy, evicted)
      ensures ok <==> chrome.opens && (evicted != "" || maxTabs <= 0 || |old(tabs)| < maxTabs)
      ensures maxTabs > 0 ==> |tabs| <= maxTabs || |tabs| <= |old(tabs)|
      ensures maxTabs > 0 ==> Leads(old(View()), View(), maxTabs, policy)
    {
      ghost var before := View();
      assert before == Effected(before, Nothing) && Allowed(before, Nothing, maxTabs, policy);
      ok, evicted := MakeRoom(chrome);
      if !ok {
        return false, "";
      }
      if !chrome.opens {
        assert evicted != "" ==> View() == Effected(before, Forget(evicted)) && Allowed(before, Forget(evicted), maxTabs, policy);
        return false, evicted;
      }
      Insert(chrome.created, now);
      assert View() == Effected(before, Open(evicted, chrome.created, now));
      assert maxTabs > 0 ==> Allowed(before, Open(evicted, chrome.created, now), maxTabs, policy);
    }

    // adoptExistingTarget; a target that is tracked already is only marked as used.
    method Adopt(target: string, enforceLimit: bool, chrome: Chrome, now: int) returns (ok: bool, evicted: string)
      requires Valid()
      modifies this
      ensures Valid()
      ensures target == "" ==> !ok && View() == old(View())
      ensures target in old(tabs) ==>
                && (ok <==> old(tabs)[target].hasContext)
                && View() == if ok then Touch(old(View()), target, now) else old(View())
      ensures target != "" && target !in old(tabs) ==>
                && (ok ==> View() == Track(if evicted == "" then old(View()) else Drop(old(View()), evicted), target, target, now))
                && (!ok ==> View() == old(View()))
                && (evicted != "" ==> Evictable(old(View()), policy, evicted))
                && var full := enforceLimit && maxTabs > 0 && |old(tabs)| >= maxTabs;
                   var canEvict := policy != Reject && chrome.pages > 1;
                   (ok <==> !full || canEvict) && (evicted != "" <==> full && canEvict)
      ensures enforceLimit && maxTabs > 0 ==> |tabs| <= maxTabs || |tabs| <= |old(tabs)|
      ensures enforceLimit && maxTabs > 0 ==> Leads(old(View()), View(), maxTabs, policy)
    {
      evicted := "";
      ghost var before := View();
      assert before == Effected(before, Nothing) && Allowed(before, Nothing, maxTabs, policy);
      if target == "" {
        return false, "";
      }
      if target in tabs {
        if !tabs[target].hasContext {
          return false, "";
        }
        MarkAccessed(target, now);
        assert tabs.Keys == old(tabs).Keys;
        return true, "";
      }
      if enforceLimit {
        ok, evicted := MakeRoom(chrome);
        if !ok {
          return false, "";
        }
      }
      Insert(target, now);
      ok := true;
      assert View() == Effected(before, Open(evicted, target, now));
      assert enforceLimit && maxTabs > 0 ==> Allowed(before, Open(evicted, target, now), maxTabs, policy);
    }

    // The ID is recorded whether it is tracked or not; the maps stay coherent exactly if it is.
    method MarkAccessed(tabID: string, now: int)
      requires Valid()
      modifies this
      ensures View() == Touch(old(View()), tabID, now)
      ensures Valid() <==> tabID in old(tabs)
      ensures tabID in old(tabs) ==> Leads(old(View()), View(), maxTabs, policy)
    {
      accessed := accessed + {tabID};
      if tabID in tabs {
        tabs := tabs[tabID := tabs[tabID].(lastUsed := now)];
      }
      currentTab := tabID;
      assert tabID in old(tabs) ==> Allowed(old(View()), Use(tabID, now), maxTabs, policy) && View() == Effected(old(View()), Use(tabID, now));
    }

    method RegisterTab(tabID: string, cdpId: string, now: int)
      requires Valid() && tabID != ""
      modifies this
      ensures Valid()
      ensures View() == old(View()).(tabs := old(tabs)[tabID := Tab(true, cdpId, now, now)], current := tabID)
    {
      tabs := tabs[tabID := Tab(true, cdpId, now, now)];
      currentTab := tabID;
    }

    // selectCurrentTrackedTab: the current tab if it is still tracked, otherwise the most recently used.
    method SelectCurrent() returns (best: string)
      requires "" !in tabs
      ensures currentTab in tabs ==> best == currentTab
      ensures currentTab !in tabs ==> MostRecent(View(), best)
    {
      if currentTab != "" {
        if currentTab in tabs {
          return currentTab;
        }
      }
      best := "";
      var bestTime := 0;
      var left := tabs.Keys;
      while left != {}
        invariant left <= tabs.Keys
        invariant best == "" ==> bestTime == 0
        invariant best != "" ==> best in tabs && bestTime == tabs[best].lastUsed > 0
        invariant forall x :: x in tabs && x !in left ==> tabs[x].lastUsed <= bestTime
        decreases left
      {
        var id :| id in left;
        left := left - {id};
        if tabs[id].lastUsed > bestTime {
          best, bestTime := id, tabs[id].lastUsed;
        }
      }
      if best == "" {
        left := tabs.Keys;
        while left != {}
          invariant left <= tabs.Keys
          invariant best == "" ==> bestTime == 0
          invariant best != "" ==> best in tabs && bestTime == tabs[best].createdAt > 0
          invariant forall x :: x in tabs && x !in left ==> tabs[x].createdAt <= bestTime
          decreases left
        {
          var id :| id in left;
          left := left - {id};
          if tabs[id].createdAt > bestTime {
            best, bestTime := id, tabs[id].createdAt;
          }
        }
      }
    }
  }

  // No tab was used, or created if none was ever used, after this one; nothing is selected only if
  // every tab has zero times.
  predicate MostRecent(v: Tabs, best: string) {
    if exists x :: x in v.tabs && v.tabs[x].lastUsed > 0 then
      best in v.tabs && forall x :: x in v.tabs ==> v.tabs[x].lastUsed <= v.tabs[best].lastUsed
    else if exists x :: x in v.tabs && v.tabs[x].createdAt > 0 then
      best in v.tabs && forall x :: x in v.tabs ==> v.tabs[x].createdAt <= v.tabs[best].createdAt
    else best == ""
  }

  // ---------------------------------------------------------------- whole runs

  lemma EffectKeeps(v: Tabs, e: Effect, max: int, policy: Policy)
    requires max > 0 && Coherent(v) && Allowed(v, e, max, policy)
    ensures Coherent(Effected(v, e))
    ensures |Effected(v, e).tabs| <= max || |Effected(v, e).tabs| <= |v.tabs|
  {
    match e
    case Nothing =>
    case Forget(id) => DropIsCoherent(v, id);
    case Open(evicted, id, now) =>
      if evicted == "" {
        TrackIsCoherent(v, id, id, now);
      } else {
        DropIsCoherent(v, evicted);
        TrackIsCoherent(Drop(v, evicted), id, id, now);
      }
    case Use(id, now) => assert Touch(v, id, now).tabs.Keys == v.tabs.Keys;
  }

  // The states between operations, each of which leads from one to the next.
  ghost predicate Run(states: seq<Tabs>, max: int, policy: Policy) {
    forall i :: 0 <= i < |states| - 1 ==> Leads(states[i], states[i + 1], max, policy)
  }

  // Whatever the operations, the maps stay coherent, and the number of tracked tabs never grows past
  // the limit nor, where it was past it already, past where it started.
  lemma {:induction false} RunsKeepTheLimit(states: seq<Tabs>, max: int, policy: Policy, n: nat)
    requires max > 0 && n < |states| && Coherent(states[0]) && Run(states, max, policy)
    ensures Coherent(states[n])
    ensures |states[n].tabs| <= max || |states[n].tabs| <= |states[0].tabs|
  {
    if n > 0 {
      RunsKeepTheLimit(states, max, policy, n - 1);
      assert Leads(states[n - 1], states[n - 1 + 1], max, policy);
      var e :| Allowed(states[n - 1], e, max, policy) && states[n] == Effected(states[n - 1], e);
      EffectKeeps(states[n - 1], e, max, policy);
    }
  }

  // ---------------------------------------------------------------- who is evicted, from the history

  const NO_TABS := Tabs(map[], {}, map[], map[], "")

  function AfterEffects(es: seq<Effect>): Tabs
    decreases |es|
  {
    if es == [] then NO_TABS else Effected(AfterEffects(es[..|es| - 1]), es[|es| - 1])
  }

  // When the tab was last opened, if it was not forgotten or evicted since, and when it was last used.
  function OpenedAt(es: seq<Effect>, id: string): Option<int>
    decreases |es|
  {
    if es == [] then None
    else
      var front := es[..|es| - 1];
      match es[|es| - 1]
      case Open(evicted, x, now) => if x == id then Some(now) else if evicted == id then None else OpenedAt(front, id)
      case Forget(x) => if x == id then None else OpenedAt(front, id)
      case _ => OpenedAt(front, id)
  }

  function UsedAt(es: seq<Effect>, id: string): int
    decreases |es|
  {
    if es == [] then 0
    else
      match es[|es| - 1]
      case Open(_, x, now) => if x == id then now else UsedAt(es[..|es| - 1], id)
      case Use(x, now) => if x == id then now else UsedAt(es[..|es| - 1], id)
      case _ => UsedAt(es[..|es| - 1], id)
  }

  predicate RealIds(es: seq<Effect>) {
    forall i :: 0 <= i < |es| && es[i].Open? ==> es[i].id != ""
  }

  lemma {:induction false} TimesAreHistory(es: seq<Effect>, id: string)
    requires id != ""
    ensures id in AfterEffects(es).tabs <==> OpenedAt(es, id).Some?
    ensures id in AfterEffects(es).tabs ==>
              && AfterEffects(es).tabs[id].createdAt == OpenedAt(es, id).value
              && AfterEffects(es).tabs[id].lastUsed == UsedAt(es, id)
    decreases |es|
  {
    if es != [] {
      TimesAreHistory(es[..|es| - 1], id);
    }
  }

  // The time that counts for the policy of the least recent use: that of the last use, or of the opening
  // while the former is Go's zero time.
  function Recency(es: seq<Effect>, id: string): int {
    if UsedAt(es, id) == 0 && OpenedAt(es, id).Some? then OpenedAt(es, id).value else UsedAt(es, id)
  }

  lemma TimesCount(es: seq<Effect>, id: string)
    requires id != ""
    ensures id in AfterEffects(es).tabs <==> OpenedAt(es, id).Some?
    ensures id in AfterEffects(es).tabs ==>
              && AfterEffects(es).tabs[id].createdAt == OpenedAt(es, id).value
              && UseTime(AfterEffects(es).tabs[id]) == Recency(es, id)
  {
    TimesAreHistory(es, id);
    hide AfterEffects, OpenedAt, UsedAt;
  }

  ghost predicate OpenedFirst(es: seq<Effect>, id: string) {
    OpenedAt(es, id).Some? && forall x :: x != "" && OpenedAt(es, x).Some? ==> OpenedAt(es, id).value <= OpenedAt(es, x).value
  }

  ghost predicate UsedLeastRecently(es: seq<Effect>, id: string) {
    OpenedAt(es, id).Some? && forall x :: x != "" && OpenedAt(es, x).Some? ==> Recency(es, id) <= Recency(es, x)
  }

  // Over any operations, what may be evicted is an open tab that was opened first, or used least recently.
  lemma EvictionByHistory(es: seq<Effect>, id: string)
    requires RealIds(es) && id != ""
    ensures !Evictable(AfterEffects(es), Reject, id)
    ensures Evictable(AfterEffects(es), CloseOldest, id) <==> OpenedFirst(es, id)
    ensures Evictable(AfterEffects(es), CloseLRU, id) <==> UsedLeastRecently(es, id)
  {
    hide AfterEffects, OpenedAt, UsedAt, Recency, UseTime, RealIds;
    var v := AfterEffects(es);
    NoEmptyId(es);
    TimesCount(es, id);
    forall x | x != "" && OpenedAt(es, x).Some?
      ensures x in v.tabs && v.tabs[x].createdAt == OpenedAt(es, x).value && UseTime(v.tabs[x]) == Recency(es, x)
    {
      TimesCount(es, x);
    }
    forall x | x in v.tabs
      ensures x != "" && OpenedAt(es, x).Some? && v.tabs[x].createdAt == OpenedAt(es, x).value && UseTime(v.tabs[x]) == Recency(es, x)
    {
      TimesCount(es, x);
    }
    assert IsOldest(v, id) <==> OpenedFirst(es, id);
    assert IsLeastRecentlyUsed(v, id) <==> UsedLeastRecently(es, id);
  }

  lemma {:induction false} NoEmptyId(es: seq<Effect>)
    requires RealIds(es)
    ensures "" !in AfterEffects(es).tabs
    decreases |es|
  {
    if es != [] {
      NoEmptyId(es[..|es| - 1]);
    }
  }
}

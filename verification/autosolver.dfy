// The autosolver's retry chain, internal/autosolver/autosolver.go. What the page, the semantic engine,
// the solvers and the language model answer during one attempt is an input; so is whether the context
// is cancelled while the attempt waits for its turn.

module AttemptLogs {
  import opened PageIntents

  datatype Status = Solved | Failed | Skipped

  datatype AttemptEntry = AttemptEntry(solver: string, status: Status)

  // The entries of the first n attempts one after the other.
  function Log(chains: nat -> seq<AttemptEntry>, n: nat): seq<AttemptEntry> {
    if n == 0 then [] else Log(chains, n - 1) + chains(n - 1)
  }

  // The first solved entry, or the length if there is none.
  function FirstSolved(log: seq<AttemptEntry>): (i: nat)
    ensures i <= |log| && (forall j :: 0 <= j < i ==> log[j].status != Solved) && (i < |log| ==> log[i].status == Solved)
  {
    if log == [] || log[0].status == Solved then 0 else 1 + FirstSolved(log[1..])
  }

  predicate NoneSolved(log: seq<AttemptEntry>) {
    forall i :: 0 <= i < |log| ==> log[i].status != Solved
  }

  predicate EndsSolved(log: seq<AttemptEntry>) {
    log != [] && log[|log| - 1].status == Solved && NoneSolved(log[..|log| - 1])
  }

  lemma {:induction false} LogExtends(chains: nat -> seq<AttemptEntry>, m: nat, n: nat)
    requires m <= n
    ensures Log(chains, m) <= Log(chains, n)
  {
    if m < n {
      LogExtends(chains, m, n - 1);
    }
  }

  lemma NothingLogged(chains: nat -> seq<AttemptEntry>)
    ensures Log(chains, 0) == [] && NoneSolved([])
  {
  }

  lemma LogOneMore(chains: nat -> seq<AttemptEntry>, n: nat)
    ensures Log(chains, n + 1) == Log(chains, n) + chains(n)
    ensures NoneSolved(Log(chains, n)) && NoneSolved(chains(n)) ==> NoneSolved(Log(chains, n + 1))
  {
  }

  // If attempt m reports success with the last of these entries, nothing before having done so, that is
  // the first solved entry of the whole log.
  lemma FirstSolvedIsIn(chains: nat -> seq<AttemptEntry>, n: nat, m: nat, entries: seq<AttemptEntry>)
    requires m < n && entries <= chains(m) && EndsSolved(entries)
    requires NoneSolved(Log(chains, m))
    ensures var log, i := Log(chains, n), FirstSolved(Log(chains, n));
            i < |log| && log[..i + 1] == Log(chains, m) + entries && |Log(chains, m)| <= i < |Log(chains, m + 1)|
  {
    var log, before, chain := Log(chains, n), Log(chains, m), chains(m);
    var history := before + entries;
    LogExtends(chains, m + 1, n);
    assert before + chain <= log;
    forall k | 0 <= k < |history| ensures log[k] == history[k] {
      assert log[k] == (before + chain)[k];
    }
    assert forall k :: 0 <= k < |entries| - 1 ==> entries[k] == entries[..|entries| - 1][k];
    FirstSolvedIs(log, |history| - 1);
  }

  lemma FirstSolvedIs(log: seq<AttemptEntry>, i: nat)
    requires i < |log| && log[i].status == Solved && forall j :: 0 <= j < i ==> log[j].status != Solved
    ensures FirstSolved(log) == i
  {
  }

  datatype Failure = NoFailure | Cancelled | Exhausted

  datatype Result = Result(
    solved: bool,
    solverUsed: string,
    intent: Intent,
    attempts: nat,
    history: seq<AttemptEntry>,
    failure: Failure)

  // How many attempts can start, counting from k: the first never waits, any other may be cancelled.
  function Startable(cancelled: nat -> bool, k: nat, max: int): (n: nat)
    ensures n >= k && (k <= max ==> n <= max)
    decreases max - k
  {
    if k >= max || (k > 0 && cancelled(k)) then k else Startable(cancelled, k + 1, max)
  }

  // The result read off the log that all attempts that can start would leave: it ends with the first
  // solved entry, and the attempt that entry belongs to was the last.
  predicate IsOutcome(r: Result, intent: Intent, chains: nat -> seq<AttemptEntry>, n: nat, max: int) {
    var log := Log(chains, n);
    var i := FirstSolved(log);
    && r.intent == intent
    && (r.solved <==> i < |log|)
    && (if r.solved then
          && r.history == log[..i + 1] && r.solverUsed == log[i].solver && r.failure == NoFailure
          && 0 < r.attempts <= n
          && |Log(chains, r.attempts - 1)| <= i < |Log(chains, r.attempts)|
        else
          && r.history == log && r.solverUsed == ""
          && (if n < max then r.failure == Cancelled && r.attempts == n + 1 else r.failure == Exhausted && r.attempts == n))
  }

  lemma SolvedOutcome(chains: nat -> seq<AttemptEntry>, n: nat, max: int, intent: Intent, m: nat, entries: seq<AttemptEntry>)
    requires m < n && entries <= chains(m) && EndsSolved(entries)
    requires NoneSolved(Log(chains, m))
    ensures IsOutcome(Result(true, entries[|entries| - 1].solver, intent, m + 1, Log(chains, m) + entries, NoFailure),
                      intent, chains, n, max)
  {
    hide Log, FirstSolved, NoneSolved;
    var log, history := Log(chains, n), Log(chains, m) + entries;
    FirstSolvedIsIn(chains, n, m, entries);
    var i := FirstSolved(log);
    assert |history| == i + 1 && history[i] == entries[|entries| - 1];
    assert log[i] == log[..i + 1][i];
    assert Log(chains, m + 1 - 1) == Log(chains, m);
  }

  lemma UnsolvedOutcome(chains: nat -> seq<AttemptEntry>, n: nat, max: int, intent: Intent)
    requires NoneSolved(Log(chains, n))
    ensures IsOutcome(if n < max then Result(false, "", intent, n + 1, Log(chains, n), Cancelled)
                      else Result(false, "", intent, n, Log(chains, n), Exhausted), intent, chains, n, max)
  {
  }
}

module AutoSolving {
  import opened GoText
  import opened AttemptLogs
  import opened PageIntents
  import opened RetryBackoff
  import opened SemanticFlow

  datatype Config = Config(
    maxAttempts: int,
    solvers: seq<string>,
    hasSemantic: bool,
    llmFallback: bool,
    hasLLM: bool,
    delays: Delays,
    credentials: Credentials)

  // ---------------------------------------------------------------- the semantic engine

  function SemanticEntry(cfg: Config, intent: Intent, steps: nat -> StepAnswers): AttemptEntry {
    AttemptEntry("semantic",
                 if !cfg.hasSemantic then Skipped
                 else if FlowSucceeds(intent, steps, Carrying(steps, cfg.credentials)) then Solved else Failed)
  }

  function Carrying(steps: nat -> StepAnswers, c: Credentials): Doing {
    (intent: Intent, k: nat) => CarriedOut(intent, k, steps(k), c)
  }

  method TrySemantic(cfg: Config, intent: Intent, steps: nat -> StepAnswers) returns (solved: bool, entry: AttemptEntry)
    ensures entry == SemanticEntry(cfg, intent, steps)
    ensures solved <==> entry.status == Solved
  {
    if !cfg.hasSemantic {
      return false, AttemptEntry("semantic", Skipped);
    }
    solved := RunFlow(intent, steps, Carrying(steps, cfg.credentials));
    entry := AttemptEntry("semantic", if solved then Solved else Failed);
  }

  // ---------------------------------------------------------------- the registered solvers

  datatype Solver = Solver(name: string, solves: bool)

  // The last of the matching solvers with this name; the registry has one at most.
  function Named(matching: seq<Solver>, name: string): Option<Solver> {
    if matching == [] then None
    else if matching[|matching| - 1].name == name then Some(matching[|matching| - 1])
    else Named(matching[..|matching| - 1], name)
  }

  function Listed(names: seq<string>, matching: seq<Solver>): seq<Solver> {
    if names == [] then []
    else
      var last := Named(matching, names[|names| - 1]);
      Listed(names[..|names| - 1], matching) + if last.Some? then [last.value] else []
  }

  // The configured order if it names any matching solver, the priority order otherwise.
  function Order(cfg: Config, matching: seq<Solver>): (order: seq<Solver>)
    ensures matching != [] ==> order != []
  {
    if Listed(cfg.solvers, matching) == [] then matching else Listed(cfg.solvers, matching)
  }

  function FirstSolving(order: seq<Solver>): (i: nat)
    ensures i <= |order| && (forall j :: 0 <= j < i ==> !order[j].solves) && (i < |order| ==> order[i].solves)
  {
    if order == [] || order[0].solves then 0 else 1 + FirstSolving(order[1..])
  }

  // The first solver of the order that succeeds, or else the last one tried.
  function SolversEntry(cfg: Config, matching: seq<Solver>): AttemptEntry {
    if matching == [] then AttemptEntry("none", Skipped)
    else
      var order := Order(cfg, matching);
      var i := FirstSolving(order);
      if i < |order| then AttemptEntry(order[i].name, Solved) else AttemptEntry(order[|order| - 1].name, Failed)
  }

  lemma {:induction false} ListedMembers(names: seq<string>, matching: seq<Solver>, s: Solver)
    requires s in Listed(names, matching)
    ensures s.name in names && s in matching
  {
    var last := names[|names| - 1];
    if s in Listed(names[..|names| - 1], matching) {
      ListedMembers(names[..|names| - 1], matching, s);
    } else {
      NamedMember(matching, last);
    }
  }

  lemma {:induction false} NamedMember(matching: seq<Solver>, name: string)
    ensures var r := Named(matching, name); if r.Some? then r.value in matching && r.value.name == name
                                            else forall s :: s in matching ==> s.name != name
  {
    if matching != [] && matching[|matching| - 1].name != name {
      NamedMember(matching[..|matching| - 1], name);
    }
  }

  // Once one configured name matches, a solver that is not configured is never used, whether it could
  // solve the page or not; without any match all matching solvers have their turn.
  lemma ConfiguredSolversOnly(cfg: Config, matching: seq<Solver>, s: Solver)
    requires s in Order(cfg, matching)
    ensures s in matching
    ensures (exists m :: m in matching && m.name in cfg.solvers) ==> s.name in cfg.solvers
  {
    if m :| m in matching && m.name in cfg.solvers {
      ListedIfMatching(cfg.solvers, matching, m);
      ListedMembers(cfg.solvers, matching, s);
    } else if s in Listed(cfg.solvers, matching) {
      ListedMembers(cfg.solvers, matching, s);
    }
  }

  lemma {:induction false} ListedIfMatching(names: seq<string>, matching: seq<Solver>, m: Solver)
    requires m in matching && m.name in names
    ensures Listed(names, matching) != []
  {
    NamedMember(matching, m.name);
    if names[|names| - 1] != m.name {
      ListedIfMatching(names[..|names| - 1], matching, m);
    }
  }

  // The places in the configured order whose names match a solver.
  function MatchedAt(names: seq<string>, matching: seq<Solver>): (at: seq<nat>)
    ensures forall i :: 0 <= i < |at| ==> at[i] < |names|
    ensures forall i, j :: 0 <= i < j < |at| ==> at[i] < at[j]
    ensures forall k: nat :: k in at <==> k < |names| && exists m :: m in matching && m.name == names[k]
  {
    if names == [] then []
    else
      var last := |names| - 1;
      var front := MatchedAt(names[..last], matching);
      assert forall k: nat :: k in front ==> k < last;
      if exists m :: m in matching && m.name == names[last] then front + [last] else front
  }

  lemma {:induction false} ListedInOrder(names: seq<string>, matching: seq<Solver>)
    ensures var order, at := Listed(names, matching), MatchedAt(names, matching);
            |order| == |at| && forall i :: 0 <= i < |order| ==> order[i] in matching && order[i].name == names[at[i]]
  {
    if names != [] {
      ListedInOrder(names[..|names| - 1], matching);
      NamedMember(matching, names[|names| - 1]);
    }
  }

  // If any configured name matches, the solvers tried are the matching ones named, in the configured order;
  // otherwise all matching ones in the order they come in.
  lemma OrderMeaning(cfg: Config, matching: seq<Solver>)
    ensures var order, at := Order(cfg, matching), MatchedAt(cfg.solvers, matching);
            if at == [] then order == matching
            else |order| == |at| && forall i :: 0 <= i < |order| ==> order[i] in matching && order[i].name == cfg.solvers[at[i]]
  {
    ListedInOrder(cfg.solvers, matching);
  }

  // The configured names that match, in their order, by way of a table from names to solvers.
  method OrderSolvers(cfg: Config, matching: seq<Solver>) returns (ordered: seq<Solver>)
    ensures ordered == Order(cfg, matching)
  {
    ordered := matching;
    if |cfg.solvers| > 0 {
      var byName: map<string, Solver> := map[];
      for i := 0 to |matching|
        invariant forall n :: if n in byName then Named(matching[..i], n) == Some(byName[n]) else Named(matching[..i], n) == None
      {
        assert matching[..i + 1][..i] == matching[..i];
        byName := byName[matching[i].name := matching[i]];
      }
      assert matching[..|matching|] == matching;
      var filtered: seq<Solver> := [];
      for i := 0 to |cfg.solvers|
        invariant filtered == Listed(cfg.solvers[..i], matching)
      {
        assert cfg.solvers[..i + 1][..i] == cfg.solvers[..i];
        if cfg.solvers[i] in byName {
          filtered := filtered + [byName[cfg.solvers[i]]];
        }
      }
      assert cfg.solvers[..|cfg.solvers|] == cfg.solvers;
      if |filtered| > 0 {
        ordered := filtered;
      }
    }
  }

  method TrySolvers(cfg: Config, matching: seq<Solver>) returns (solved: bool, entry: AttemptEntry)
    ensures entry == SolversEntry(cfg, matching)
    ensures solved <==> entry.status == Solved
  {
    if |matching| == 0 {
      return false, AttemptEntry("none", Skipped);
    }
    var ordered := OrderSolvers(cfg, matching);
    for i := 0 to |ordered|
      invariant forall j :: 0 <= j < i ==> !ordered[j].solves
    {
      if ordered[i].solves {
        return true, AttemptEntry(ordered[i].name, Solved);
      }
    }
    return false, AttemptEntry(ordered[|ordered| - 1].name, Failed);
  }

  // ---------------------------------------------------------------- the language model

  datatype LLMAnswer = HTMLFails | LLMFails | Responds(action: ActionKind, selector: string, executes: bool)

  // Executing the suggested action counts as solving, and so does the suggestion to do nothing.
  function LLMEntry(a: LLMAnswer): AttemptEntry {
    var acts :=
      match a
      case HTMLFails | LLMFails => false
      case Responds(Click, selector, executes) => selector != "" && executes
      case Responds(Type, _, executes) => executes
      case Responds(Navigate, _, executes) => executes
      case Responds(NoAction, _, _) => true
      case Responds(_, _, _) => false;
    AttemptEntry("llm", if acts then Solved else Failed)
  }

  // ---------------------------------------------------------------- the whole chain

  datatype AttemptAnswers = AttemptAnswers(
    cancelled: bool,
    steps: nat -> StepAnswers,
    matching: seq<Solver>,
    llm: LLMAnswer)

  predicate UsesLLM(cfg: Config) {
    cfg.llmFallback && cfg.hasLLM
  }

  // What an attempt would record if it went through the whole chain regardless.
  function Chain(cfg: Config, intent: Intent, a: AttemptAnswers): seq<AttemptEntry> {
    [SemanticEntry(cfg, intent, a.steps), SolversEntry(cfg, a.matching)] + if UsesLLM(cfg) then [LLMEntry(a.llm)] else []
  }

  function Cancellations(world: nat -> AttemptAnswers): nat -> bool {
    (k: nat) => world(k).cancelled
  }

  function Chains(cfg: Config, intent: Intent, world: nat -> AttemptAnswers): nat -> seq<AttemptEntry> {
    (k: nat) => Chain(cfg, intent, world(k))
  }

  lemma StartsOrStops(world: nat -> AttemptAnswers, k: nat, max: int)
    ensures Startable(Cancellations(world), k, max)
         == if k >= max || (k > 0 && world(k).cancelled) then k else Startable(Cancellations(world), k + 1, max)
  {
  }

  // The loop, which stops as soon as something reports success, has the outcome read off the log, and
  // waits before each attempt but the first.
  method Retry(cfg: Config, intent: Intent, world: nat -> AttemptAnswers, delay: nat -> int) returns (r: Result, waits: seq<int>)
    ensures IsOutcome(r, intent, Chains(cfg, intent, world), Startable(Cancellations(world), 0, cfg.maxAttempts), cfg.maxAttempts)
    ensures waits == Waits(delay, if r.attempts == 0 then 0 else r.attempts - 1)
  {
    hide IsOutcome, EndsSolved, FirstSolved, NoneSolved, Log, Startable, Chains, Cancellations;
    NothingLogged(Chains(cfg, intent, world));
    ghost var chains, n := Chains(cfg, intent, world), Startable(Cancellations(world), 0, cfg.maxAttempts);
    var history: seq<AttemptEntry> := [];
    var attempt := 0;
    waits := [];
    while attempt < cfg.maxAttempts
      invariant 0 <= attempt && (attempt <= cfg.maxAttempts || attempt == 0)
      invariant Startable(Cancellations(world), attempt, cfg.maxAttempts) == n
      invariant history == Log(chains, attempt)
      invariant NoneSolved(history)
      invariant waits == Waits(delay, if attempt == 0 then 0 else attempt - 1)
    {
      StartsOrStops(world, attempt, cfg.maxAttempts);
      if attempt > 0 {
        waits := waits + [delay(attempt)];
        if world(attempt).cancelled {
          UnsolvedOutcome(chains, n, cfg.maxAttempts, intent);
          return Result(false, "", intent, attempt + 1, history, Cancelled), waits;
        }
      }
      var solved, solver, entries := RunAttempt(cfg, intent, world, attempt);
      if solved {
        SolvedOutcome(chains, n, cfg.maxAttempts, intent, attempt, entries);
        return Result(true, solver, intent, attempt + 1, history + entries, NoFailure), waits;
      }
      LogOneMore(chains, attempt);
      history := history + entries;
      attempt := attempt + 1;
    }
    StartsOrStops(world, attempt, cfg.maxAttempts);
    UnsolvedOutcome(chains, n, cfg.maxAttempts, intent);
    return Result(false, "", intent, attempt, history, Exhausted), waits;
  }

  // A failed detection counts as unknown, and a page without a challenge as solved at once.
  method Solve(cfg: Config, detected: Option<Intent>, world: nat -> AttemptAnswers) returns (r: Result, waits: seq<int>)
    ensures detected == Some(Normal) ==> r == Result(true, "", Normal, 0, [], NoFailure) && waits == []
    ensures detected != Some(Normal) ==>
              var intent := if detected.Some? then detected.value else Unknown;
              && IsOutcome(r, intent, Chains(cfg, intent, world), Startable(Cancellations(world), 0, cfg.maxAttempts), cfg.maxAttempts)
              && waits == Waits(Backoff(cfg.delays), if r.attempts == 0 then 0 else r.attempts - 1)
  {
    var intent := if detected.Some? then detected.value else Unknown;
    if intent == Normal {
      return Result(true, "", Normal, 0, [], NoFailure), [];
    }
    r, waits := Retry(cfg, intent, world, Backoff(cfg.delays));
  }

  // One pass of the loop: the entries it appends, up to the first that reports success.
  method RunAttempt(cfg: Config, intent: Intent, world: nat -> AttemptAnswers, attempt: nat)
    returns (solved: bool, solver: string, entries: seq<AttemptEntry>)
    ensures if solved then
              && entries <= Chains(cfg, intent, world)(attempt) && EndsSolved(entries)
              && solver == entries[|entries| - 1].solver
            else entries == Chains(cfg, intent, world)(attempt) && NoneSolved(entries)
  {
    var a := world(attempt);
    ghost var chain := Chain(cfg, intent, a);
    assert Chains(cfg, intent, world)(attempt) == chain;
    var entry;
    solved, entry := TrySemantic(cfg, intent, a.steps);
    entries := [entry];
    assert entries == chain[..1];
    if solved {
      return true, entry.solver, entries;
    }
    solved, entry := TrySolvers(cfg, a.matching);
    entries := entries + [entry];
    assert entries == chain[..2];
    if solved {
      return true, entry.solver, entries;
    }
    if cfg.llmFallback && cfg.hasLLM {
      entry := LLMEntry(a.llm);
      entries := entries + [entry];
      assert entries == chain;
      if entry.status == Solved {
        return true, "llm", entries;
      }
    }
    return false, "", entries;
  }

  // ---------------------------------------------------------------- what solves a challenge

  // The three ways in which an attempt can solve it.
  ghost predicate FlowSolves(cfg: Config, intent: Intent, a: AttemptAnswers) {
    cfg.hasSemantic && FlowSucceeds(intent, a.steps, Carrying(a.steps, cfg.credentials))
  }

  // The first solver of the order that can.
  ghost predicate SolverSolves(cfg: Config, a: AttemptAnswers, name: string) {
    exists i :: FirstAble(Order(cfg, a.matching), i) && Order(cfg, a.matching)[i].name == name
  }

  predicate FirstAble(order: seq<Solver>, i: int) {
    0 <= i < |order| && order[i].solves && forall j :: 0 <= j < i ==> !order[j].solves
  }

  predicate ModelSolves(cfg: Config, a: AttemptAnswers) {
    && cfg.llmFallback && cfg.hasLLM && a.llm.Responds?
    && (|| a.llm.action == NoAction
        || (a.llm.executes && (a.llm.action == Type || a.llm.action == Navigate || (a.llm.action == Click && a.llm.selector != ""))))
  }

  ghost predicate Solves(cfg: Config, intent: Intent, a: AttemptAnswers) {
    FlowSolves(cfg, intent, a) || (exists i :: FirstAble(Order(cfg, a.matching), i)) || ModelSolves(cfg, a)
  }

  // What an attempt records: the flow, the solvers as one entry, and the model if it is used.
  lemma ChainMeaning(cfg: Config, intent: Intent, a: AttemptAnswers)
    ensures var chain, order := Chain(cfg, intent, a), Order(cfg, a.matching);
            && |chain| == (if cfg.llmFallback && cfg.hasLLM then 3 else 2)
            && chain[0].solver == "semantic" && (chain[0].status == Solved <==> FlowSolves(cfg, intent, a))
            && (chain[0].status == Skipped <==> !cfg.hasSemantic)
            && (chain[1].status == Skipped <==> a.matching == []) && (a.matching == [] ==> chain[1].solver == "none")
            && (chain[1].status == Solved <==> SolverSolves(cfg, a, chain[1].solver))
            && (chain[1].status == Solved <==> exists i :: FirstAble(order, i))
            && (chain[1].status == Failed ==> order != [] && chain[1].solver == order[|order| - 1].name)
            && (|chain| == 3 ==> chain[2].solver == "llm" && (chain[2].status == Solved <==> ModelSolves(cfg, a)) && chain[2].status != Skipped)
  {
    var order := Order(cfg, a.matching);
    var i := FirstSolving(order);
    if a.matching == [] {
      NothingListed(cfg.solvers, a.matching);
    }
    if i < |order| {
      assert FirstAble(order, i);
    }
    assert forall j :: FirstAble(order, j) ==> j == i;
    hide FlowSucceeds, Order, FirstSolving;
  }

  lemma {:induction false} NothingListed(names: seq<string>, matching: seq<Solver>)
    requires matching == []
    ensures Listed(names, matching) == []
  {
    if names != [] {
      NothingListed(names[..|names| - 1], matching);
    }
  }

  // An attempt starts if there are that many and none of those after the first was cancelled so far.
  predicate Starts(world: nat -> AttemptAnswers, k: nat, max: int) {
    k < max && forall j :: 1 <= j <= k ==> !world(j).cancelled
  }

  lemma {:induction false} StartableIs(world: nat -> AttemptAnswers, k: nat, max: int)
    requires forall j :: 1 <= j < k ==> !world(j).cancelled
    ensures var n := Startable(Cancellations(world), k, max);
            && (forall i: nat :: k <= i < n ==> Starts(world, i, max))
            && (n < max ==> n > 0 && world(n).cancelled)
            && (n < max ==> !Starts(world, n, max))
            && (k >= max ==> n == k)
    decreases max - k
  {
    StartsOrStops(world, k, max);
    hide Startable, Cancellations;
    if k < max && !(k > 0 && world(k).cancelled) {
      StartableIs(world, k + 1, max);
    }
  }

  // The chain of attempt k within the log of more attempts.
  lemma ChainInLog(chains: nat -> seq<AttemptEntry>, k: nat, n: nat)
    requires k < n
    ensures |Log(chains, k)| + |chains(k)| <= |Log(chains, n)|
    ensures forall j :: 0 <= j < |chains(k)| ==> Log(chains, n)[|Log(chains, k)| + j] == chains(k)[j]
  {
    hide *;
    var before, chain, log := Log(chains, k), chains(k), Log(chains, n);
    LogExtends(chains, k + 1, n);
    LogOneMore(chains, k);
    forall j | 0 <= j < |chain| ensures log[|before| + j] == chain[j] {
      assert (before + chain)[|before| + j] == chain[j];
    }
  }

  lemma UnsolvedChain(cfg: Config, intent: Intent, world: nat -> AttemptAnswers, k: nat, n: nat)
    requires k < n && NoneSolved(Log(Chains(cfg, intent, world), n))
    ensures !Solves(cfg, intent, world(k))
  {
    var chain := Chain(cfg, intent, world(k));
    assert Chains(cfg, intent, world)(k) == chain;
    ChainInLog(Chains(cfg, intent, world), k, n);
    ChainMeaning(cfg, intent, world(k));
    hide Chain, Log, FlowSolves, Order;
    assert chain[0].status != Solved && chain[1].status != Solved && (|chain| == 3 ==> chain[2].status != Solved);
  }

  // A challenge is solved exactly if an attempt that starts can solve it, and then by the first such: by the
  // flow if that succeeds, else by the first solver of the order that can, else by the model.
  lemma SolvedByWhom(r: Result, cfg: Config, intent: Intent, world: nat -> AttemptAnswers)
    requires IsOutcome(r, intent, Chains(cfg, intent, world), Startable(Cancellations(world), 0, cfg.maxAttempts), cfg.maxAttempts)
    ensures r.solved <==> exists k: nat :: Starts(world, k, cfg.maxAttempts) && Solves(cfg, intent, world(k))
    ensures r.solved ==>
              var k := r.attempts - 1;
              && k >= 0 && Starts(world, k, cfg.maxAttempts) && Solves(cfg, intent, world(k))
              && (forall j: nat :: j < k ==> !Solves(cfg, intent, world(j)))
              && (if FlowSolves(cfg, intent, world(k)) then r.solverUsed == "semantic"
                  else SolverSolves(cfg, world(k), r.solverUsed)
                       || (r.solverUsed == "llm" && ModelSolves(cfg, world(k)) && forall i :: !FirstAble(Order(cfg, world(k).matching), i)))
    ensures !r.solved ==>
              if r.failure == Cancelled then
                r.attempts >= 2 && world(r.attempts - 1).cancelled && Starts(world, r.attempts - 2, cfg.maxAttempts)
              else r.failure == Exhausted && r.attempts == if cfg.maxAttempts > 0 then cfg.maxAttempts else 0
  {
    hide Log, Chains, FirstSolved, Startable, Cancellations, Solves, FlowSolves, SolverSolves, ModelSolves, FirstAble, Order;
    var chains, n := Chains(cfg, intent, world), Startable(Cancellations(world), 0, cfg.maxAttempts);
    StartableIs(world, 0, cfg.maxAttempts);
    if r.solved {
      SolvedHere(r, cfg, intent, world);
    } else {
      forall k: nat | Starts(world, k, cfg.maxAttempts) ensures !Solves(cfg, intent, world(k)) {
        UnsolvedChain(cfg, intent, world, k, n);
      }
    }
  }

  lemma ChainsAre(cfg: Config, intent: Intent, world: nat -> AttemptAnswers, k: nat)
    ensures Chains(cfg, intent, world)(k) == Chain(cfg, intent, world(k))
  {
  }

  // The first solved entry of a chain tells who solved it.
  lemma SolvedInChain(cfg: Config, intent: Intent, a: AttemptAnswers, at: nat)
    requires var chain := Chain(cfg, intent, a);
             at < |chain| && chain[at].status == Solved && forall j :: 0 <= j < at ==> chain[j].status != Solved
    ensures Solves(cfg, intent, a)
    ensures var name := Chain(cfg, intent, a)[at].solver;
            if FlowSolves(cfg, intent, a) then name == "semantic"
            else SolverSolves(cfg, a, name) || (name == "llm" && ModelSolves(cfg, a) && forall i :: !FirstAble(Order(cfg, a.matching), i))
  {
    ChainMeaning(cfg, intent, a);
    hide Chain, FlowSolves, Order, SolverSolves, ModelSolves;
  }

  lemma SolvedHere(r: Result, cfg: Config, intent: Intent, world: nat -> AttemptAnswers)
    requires r.solved
    requires IsOutcome(r, intent, Chains(cfg, intent, world), Startable(Cancellations(world), 0, cfg.maxAttempts), cfg.maxAttempts)
    ensures var k := r.attempts - 1;
            && 0 <= k < Startable(Cancellations(world), 0, cfg.maxAttempts) && Solves(cfg, intent, world(k))
            && (forall j: nat :: j < k ==> !Solves(cfg, intent, world(j)))
            && (if FlowSolves(cfg, intent, world(k)) then r.solverUsed == "semantic"
                else SolverSolves(cfg, world(k), r.solverUsed)
                     || (r.solverUsed == "llm" && ModelSolves(cfg, world(k)) && forall i :: !FirstAble(Order(cfg, world(k).matching), i)))
  {
    hide Log, FlowSolves, Order, Startable, FirstSolved, Chain, Chains, Solves;
    var chains, n, k := Chains(cfg, intent, world), Startable(Cancellations(world), 0, cfg.maxAttempts), r.attempts - 1;
    var i := FirstSolved(Log(chains, n));
    assert 0 <= k < n && |Log(chains, k)| <= i < |Log(chains, k + 1)| && r.solverUsed == Log(chains, n)[i].solver;
    LogOneMore(chains, k);
    ChainInLog(chains, k, n);
    LogExtends(chains, k, n);
    forall j: nat | j < k ensures !Solves(cfg, intent, world(j)) {
      UnsolvedChain(cfg, intent, world, j, k);
    }
    ChainsAre(cfg, intent, world, k);
    var at := i - |Log(chains, k)|;
    forall j | 0 <= j < at ensures chains(k)[j].status != Solved {
      assert Log(chains, n)[|Log(chains, k)| + j] == chains(k)[j];
    }
    SolvedInChain(cfg, intent, world(k), at);
  }

  lemma {:induction false} LogLength(cfg: Config, intent: Intent, world: nat -> AttemptAnswers, n: nat)
    ensures |Log(Chains(cfg, intent, world), n)| == if UsesLLM(cfg) then 3 * n else 2 * n
  {
    if n > 0 {
      LogLength(cfg, intent, world, n - 1);
      assert Chains(cfg, intent, world)(n - 1) == Chain(cfg, intent, world(n - 1));
    }
  }

  // What a caller can rely on in every result: the attempts stay within the limit; only the last entry
  // can be a solved one, and it is exactly if the challenge was solved, naming the solver used; an
  // attempt that did not solve it left two entries, or three with the language model, and the one that
  // did left at least one.
  lemma ResultsAreConsistent(r: Result, cfg: Config, intent: Intent, world: nat -> AttemptAnswers)
    requires IsOutcome(r, intent, Chains(cfg, intent, world), Startable(Cancellations(world), 0, cfg.maxAttempts), cfg.maxAttempts)
    ensures r.attempts == 0 || r.attempts <= cfg.maxAttempts
    ensures r.attempts == 0 <==> cfg.maxAttempts <= 0
    ensures forall i :: 0 <= i < |r.history| - 1 ==> r.history[i].status != Solved
    ensures r.solved <==> r.history != [] && r.history[|r.history| - 1].status == Solved
    ensures if r.solved then r.solverUsed == r.history[|r.history| - 1].solver else r.solverUsed == ""
    ensures r.solved ==>
              if UsesLLM(cfg) then 3 * (r.attempts - 1) < |r.history| <= 3 * r.attempts
              else 2 * (r.attempts - 1) < |r.history| <= 2 * r.attempts
    ensures !r.solved ==>
              var completed := if r.failure == Cancelled then r.attempts - 1 else r.attempts;
              |r.history| == if UsesLLM(cfg) then 3 * completed else 2 * completed
  {
    hide Log, Chains, Cancellations;
    var n := Startable(Cancellations(world), 0, cfg.maxAttempts);
    LogLength(cfg, intent, world, n);
    if r.solved {
      LogLength(cfg, intent, world, r.attempts - 1);
      LogLength(cfg, intent, world, r.attempts);
    }
  }
}

// The semantic flow of one autosolver attempt, internal/autosolver/autosolver.go. What detection,
// element search and the executor answer in each step is an input.

module PageIntents {
  datatype Intent = Normal | Captcha | Login | Signup | Form | Blocked | Onboarding | Navigation | Unknown
}

module SemanticFlow {
  import opened GoText
  import opened PageIntents

  datatype Credentials = Credentials(
    loginUser: string, loginPassword: string,
    signupName: string, signupEmail: string, signupPassword: string,
    field1: string, field2: string, formEmail: string)

  // ---------------------------------------------------------------- one semantic step

  datatype ActionKind = Click | Type | Wait | Navigate | Evaluate | NoAction | Unsupported(name: string)

  datatype SuggestedAction = SuggestedAction(
    action: ActionKind, selector: string, text: string, url: string, expr: string, x: real, y: real)

  datatype Suggestion = SuggestFails | Suggests(action: Option<SuggestedAction>)

  datatype Found = FindFails | NoMatch | Match(selector: string, ref: string, x: real, y: real)

  // `refresh` and `post` are the detections before and after the step; None is a failed detection.
  datatype StepAnswers = StepAnswers(
    refresh: Option<Intent>,
    suggestion: Suggestion,
    found: Found,
    executes: bool,
    foundAgain: Found,
    executesHealed: bool,
    post: Option<Intent>)

  predicate HighLevel(intent: Intent) {
    intent in {Login, Signup, Form, Onboarding, Navigation}
  }

  function StepBudget(intent: Intent): nat {
    match intent
    case Signup => 4
    case Login | Form | Onboarding | Navigation => 3
    case Captcha | Blocked => 2
    case _ => 1
  }

  datatype FlowStep = FlowStep(action: ActionKind, value: string)

  // What the built-in flow of an intent does in each step; the last step repeats.
  function FlowSteps(intent: Intent, c: Credentials): (steps: seq<FlowStep>)
    ensures steps != []
  {
    match intent
    case Captcha | Blocked => [FlowStep(Click, ""), FlowStep(Wait, "")]
    case Login => [FlowStep(Type, c.loginUser), FlowStep(Type, c.loginPassword), FlowStep(Click, "")]
    case Signup =>
      [FlowStep(Type, c.signupName), FlowStep(Type, c.signupEmail), FlowStep(Type, c.signupPassword), FlowStep(Click, "")]
    case Form =>
      [FlowStep(Type, c.field1), FlowStep(Type, if c.field2 != "" then c.field2 else c.formEmail), FlowStep(Click, "")]
    case Onboarding | Navigation => [FlowStep(Click, ""), FlowStep(Click, ""), FlowStep(Click, "")]
    case _ => [FlowStep(Click, "")]
  }

  function FlowStepAt(intent: Intent, step: nat, c: Credentials): FlowStep {
    var steps := FlowSteps(intent, c);
    if step >= |steps| then steps[|steps| - 1] else steps[step]
  }

  function Plan(intent: Intent, step: nat, suggested: Option<SuggestedAction>, c: Credentials): SuggestedAction {
    var flow := FlowStepAt(intent, step, c);
    var a := if suggested.Some? then suggested.value else SuggestedAction(NoAction, "", "", "", "", 0.0, 0.0);
    var b := if a.action == NoAction || HighLevel(intent) then a.(action := flow.action) else a;
    if b.text == "" && b.action == Type then b.(text := flow.value) else b
  }

  predicate HasTarget(a: SuggestedAction) {
    a.selector != "" || a.x != 0.0 || a.y != 0.0
  }

  predicate NeedsTarget(a: SuggestedAction) {
    (a.action == Click || a.action == Type) && !HasTarget(a)
  }

  function Resolved(a: SuggestedAction, m: Found): SuggestedAction
    requires m.Match?
  {
    var b := a.(selector := if m.selector != "" then m.selector else if m.ref != "" then m.ref else a.selector);
    if m.x != 0.0 || m.y != 0.0 then b.(x := m.x, y := m.y) else b
  }

  // Typing nothing becomes a click, and a click has to have a target.
  function Finished(a: SuggestedAction, flow: FlowStep): Option<SuggestedAction> {
    var b := if a.action != Type || a.text != "" then a
             else if flow.value == "" then a.(text := "", action := Click)
             else a.(text := flow.value);
    if b.action == Click && !HasTarget(b) then None else Some(b)
  }

  // Something the executor can be given: it will not be refused for a missing target or text.
  predicate Actionable(a: SuggestedAction) {
    (a.action == Click ==> HasTarget(a)) && (a.action == Type ==> a.text != "")
  }

  function Prepare(intent: Intent, step: nat, a: SuggestedAction, found: Found, c: Credentials): (r: Option<SuggestedAction>)
    ensures r.Some? ==> Actionable(r.value)
    ensures r.Some? && NeedsTarget(a) ==> found.Match?
  {
    var flow := FlowStepAt(intent, step, c);
    if !HighLevel(intent) && !NeedsTarget(a) then Finished(a, flow)
    else
      match found
      case FindFails => None
      case NoMatch => if NeedsTarget(a) then None else Finished(a, flow)
      case Match(_, _, _, _) => Finished(Resolved(a, found), flow)
  }

  function Heal(intent: Intent, step: nat, a: SuggestedAction, found: Found, c: Credentials): (r: Option<SuggestedAction>)
    ensures r.Some? ==> Actionable(r.value) && found.Match?
  {
    if found.Match? then Finished(Resolved(a, found), FlowStepAt(intent, step, c)) else None
  }

  // What executeSuggestedAction refuses by itself.
  predicate Refused(a: SuggestedAction) {
    || (a.action == Click && !HasTarget(a))
    || (a.action == Evaluate && a.expr == "")
    || a.action.Unsupported?
  }

  predicate Executed(a: SuggestedAction, executorSucceeds: bool) {
    !Refused(a) && (a.action == NoAction || executorSucceeds)
  }

  // The step's action was carried out, if need be after one attempt at healing it.
  predicate CarriedOut(intent: Intent, step: nat, s: StepAnswers, c: Credentials) {
    && s.suggestion.Suggests?
    && var prepared := Prepare(intent, step, Plan(intent, step, s.suggestion.action, c), s.found, c);
       && prepared.Some?
       && (|| Executed(prepared.value, s.executes)
           || var healed := Heal(intent, step, prepared.value, s.foundAgain, c);
              healed.Some? && Executed(healed.value, s.executesHealed))
  }

  // Every intent's flow has as many steps as it may take; a high-level one ends with a click, and all that is
  // ever typed is a credential.
  lemma FlowShape(intent: Intent, c: Credentials, k: nat)
    ensures |FlowSteps(intent, c)| == StepBudget(intent)
    ensures HighLevel(intent) ==> FlowStepAt(intent, StepBudget(intent) - 1, c).action == Click
    ensures FlowStepAt(intent, k, c).action in {Click, Type, Wait}
    ensures FlowStepAt(intent, k, c).action == Type ==>
              FlowStepAt(intent, k, c).value in {c.loginUser, c.loginPassword, c.signupName, c.signupEmail, c.signupPassword, c.field1, c.field2, c.formEmail}
    ensures FlowStepAt(intent, k, c).action != Type ==> FlowStepAt(intent, k, c).value == ""
  {
  }

  // What is given to the executor: the flow's action where it has to decide, otherwise the suggested one; the
  // suggested text, or the flow's; the place that the search found, or the suggested one. Typing nothing
  // becomes a click, and without a place to click there is no action.
  lemma PreparedAction(intent: Intent, step: nat, suggested: Option<SuggestedAction>, found: Found, c: Credentials)
    ensures var flow := FlowStepAt(intent, step, c);
            var s := if suggested.Some? then suggested.value else SuggestedAction(NoAction, "", "", "", "", 0.0, 0.0);
            var kind := if HighLevel(intent) || s.action == NoAction then flow.action else s.action;
            var text := if kind == Type && s.text == "" then flow.value else s.text;
            var placed := s.selector != "" || s.x != 0.0 || s.y != 0.0;
            var searched := HighLevel(intent) || ((kind == Click || kind == Type) && !placed);
            var hit := searched && found.Match?;
            var selector := if hit && found.selector != "" then found.selector else if hit && found.ref != "" then found.ref else s.selector;
            var x := if hit && (found.x != 0.0 || found.y != 0.0) then found.x else s.x;
            var y := if hit && (found.x != 0.0 || found.y != 0.0) then found.y else s.y;
            var action := if kind == Type && text == "" then Click else kind;
            var clickable := selector != "" || x != 0.0 || y != 0.0;
            Prepare(intent, step, Plan(intent, step, suggested, c), found, c)
            == if (searched && found.FindFails?) || (searched && found.NoMatch? && (kind == Click || kind == Type) && !placed)
                  || (action == Click && !clickable)
               then None
               else Some(SuggestedAction(action, selector, text, s.url, s.expr, x, y))
  {
    hide FlowStepAt, HighLevel;
  }

  // After a failed execution the same action is tried once more where a new search finds its place.
  lemma HealedAction(intent: Intent, step: nat, a: SuggestedAction, found: Found, c: Credentials)
    requires Actionable(a)
    ensures Heal(intent, step, a, found, c)
         == if !found.Match? then None
            else
              Some(a.(selector := if found.selector != "" then found.selector else if found.ref != "" then found.ref else a.selector,
                      x := if found.x != 0.0 || found.y != 0.0 then found.x else a.x,
                      y := if found.x != 0.0 || found.y != 0.0 then found.y else a.y))
  {
    hide FlowStepAt;
  }

  // The executor decides, but for what is refused before it is asked: a click without a place, an evaluation
  // without an expression, an action it does not have. Doing nothing always succeeds.
  lemma CarriedOutExactly(intent: Intent, step: nat, s: StepAnswers, c: Credentials)
    ensures CarriedOut(intent, step, s, c)
       <==> && s.suggestion.Suggests?
            && exists a :: Prepare(intent, step, Plan(intent, step, s.suggestion.action, c), s.found, c) == Some(a)
                 && (|| Accepted(a, s.executes)
                     || exists b :: Heal(intent, step, a, s.foundAgain, c) == Some(b) && Accepted(b, s.executesHealed))
  {
    hide Prepare, Plan, Heal;
  }

  predicate Accepted(a: SuggestedAction, executes: bool) {
    match a.action
    case NoAction => true
    case Unsupported(_) => false
    case Click => executes && (a.selector != "" || a.x != 0.0 || a.y != 0.0)
    case Evaluate => executes && a.expr != ""
    case _ => executes
  }

  // ---------------------------------------------------------------- the semantic flow

  function Latest(intent: Intent, detected: Option<Intent>): Intent {
    if detected.Some? then detected.value else intent
  }

  // The intent a step starts with, and the one it leaves, however the step goes.
  function IntentBefore(initial: Intent, steps: nat -> StepAnswers, k: nat): Intent {
    if k == 0 then initial
    else Latest(Latest(IntentBefore(initial, steps, k - 1), steps(k - 1).post), steps(k).refresh)
  }

  // `done` says, for the intent a step starts with and its number, whether its action is carried out.
  type Doing = (Intent, nat) -> bool

  predicate StepDone(initial: Intent, steps: nat -> StepAnswers, done: Doing, k: nat) {
    done(IntentBefore(initial, steps, k), k)
  }

  // The page is found to be normal around step k.
  predicate NormalAt(initial: Intent, steps: nat -> StepAnswers, done: Doing, k: nat) {
    || IntentBefore(initial, steps, k) == Normal
    || (StepDone(initial, steps, done, k) && steps(k).post == Some(Normal))
  }

  // The flow succeeds if it gets, with every earlier action carried out, to a step around which the page
  // is normal; for high-level intents carrying out all actions is enough.
  predicate FlowSucceeds(initial: Intent, steps: nat -> StepAnswers, done: Doing) {
    || (exists k :: 0 <= k < StepBudget(initial) && NormalAt(initial, steps, done, k)
          && forall j :: 0 <= j < k ==> StepDone(initial, steps, done, j))
    || (HighLevel(initial) && forall j :: 0 <= j < StepBudget(initial) ==> StepDone(initial, steps, done, j))
  }

  // A step goes by the latest successful detection: its own before it, or the one after the step before, or
  // whatever that step went by.
  lemma LatestDetection(initial: Intent, steps: nat -> StepAnswers, k: nat)
    ensures IntentBefore(initial, steps, 0) == initial
    ensures k > 0 ==>
              IntentBefore(initial, steps, k)
              == if steps(k).refresh.Some? then steps(k).refresh.value
                 else if steps(k - 1).post.Some? then steps(k - 1).post.value
                 else IntentBefore(initial, steps, k - 1)
  {
  }

  predicate FlowEndsWell(initial: Intent, steps: nat -> StepAnswers, done: Doing, k: nat) {
    && k < StepBudget(initial)
    && (|| IntentBefore(initial, steps, k) == Normal
        || (done(IntentBefore(initial, steps, k), k) && steps(k).post == Some(Normal)))
    && forall j: nat :: j < k ==> StepGoesOn(initial, steps, done, j)
  }

  // Its page is no normal one before, its action is carried out, and neither is the page after it.
  predicate StepGoesOn(initial: Intent, steps: nat -> StepAnswers, done: Doing, k: nat) {
    IntentBefore(initial, steps, k) != Normal && done(IntentBefore(initial, steps, k), k) && steps(k).post != Some(Normal)
  }

  lemma GoingOn(initial: Intent, steps: nat -> StepAnswers, done: Doing, k: nat)
    ensures StepGoesOn(initial, steps, done, k) <==> StepDone(initial, steps, done, k) && !NormalAt(initial, steps, done, k)
  {
  }

  lemma {:induction false} FirstNormalEnds(initial: Intent, steps: nat -> StepAnswers, done: Doing, k: nat) returns (i: nat)
    requires k < StepBudget(initial) && NormalAt(initial, steps, done, k)
    requires forall j :: 0 <= j < k ==> StepDone(initial, steps, done, j)
    ensures FlowEndsWell(initial, steps, done, i)
  {
    hide IntentBefore, StepBudget;
    if j: nat :| j < k && NormalAt(initial, steps, done, j) {
      i := FirstNormalEnds(initial, steps, done, j);
    } else {
      i := k;
      forall j: nat | j < k ensures StepGoesOn(initial, steps, done, j) {
        GoingOn(initial, steps, done, j);
      }
    }
  }

  // The flow is over at the first step that finds a normal page before its action, cannot carry the action
  // out, or finds a normal page after it; it succeeds there in the first case and the last, and for a
  // high-level intent when all steps were carried out.
  lemma FlowExactly(initial: Intent, steps: nat -> StepAnswers, done: Doing)
    ensures FlowSucceeds(initial, steps, done)
       <==> || (exists k: nat :: FlowEndsWell(initial, steps, done, k))
            || (initial in {Login, Signup, Form, Onboarding, Navigation}
                && forall j: nat :: j < StepBudget(initial) ==> StepGoesOn(initial, steps, done, j))
  {
    hide IntentBefore, StepBudget;
    if k: nat :| k < StepBudget(initial) && NormalAt(initial, steps, done, k) && forall j :: 0 <= j < k ==> StepDone(initial, steps, done, j) {
      var i := FirstNormalEnds(initial, steps, done, k);
    } else {
      NoNormalOnTheWay(initial, steps, done);
    }
    if k: nat :| FlowEndsWell(initial, steps, done, k) {
      forall j | 0 <= j < k ensures StepDone(initial, steps, done, j) {
        assert StepGoesOn(initial, steps, done, j);
      }
      assert NormalAt(initial, steps, done, k);
    }
    if forall j: nat :: j < StepBudget(initial) ==> StepGoesOn(initial, steps, done, j) {
      forall j | 0 <= j < StepBudget(initial) ensures StepDone(initial, steps, done, j) {
        assert StepGoesOn(initial, steps, done, j);
      }
    }
  }

  lemma NoNormalOnTheWay(initial: Intent, steps: nat -> StepAnswers, done: Doing)
    requires forall k: nat :: k < StepBudget(initial) && NormalAt(initial, steps, done, k) ==>
               exists j :: 0 <= j < k && !StepDone(initial, steps, done, j)
    ensures (forall j :: 0 <= j < StepBudget(initial) ==> StepDone(initial, steps, done, j)) ==>
              forall j: nat :: j < StepBudget(initial) ==> StepGoesOn(initial, steps, done, j)
  {
    hide IntentBefore, StepBudget;
    if forall j :: 0 <= j < StepBudget(initial) ==> StepDone(initial, steps, done, j) {
      forall j: nat | j < StepBudget(initial) ensures StepGoesOn(initial, steps, done, j) {
        GoingOn(initial, steps, done, j);
      }
    }
  }

  lemma NormalEndsFlow(initial: Intent, steps: nat -> StepAnswers, done: Doing, k: nat)
    requires k < StepBudget(initial) && NormalAt(initial, steps, done, k)
    requires forall j :: 0 <= j < k ==> StepDone(initial, steps, done, j)
    ensures FlowSucceeds(initial, steps, done)
  {
  }

  lemma StuckFlowFails(initial: Intent, steps: nat -> StepAnswers, done: Doing, k: nat)
    requires k < StepBudget(initial) && !StepDone(initial, steps, done, k)
    requires forall j :: 0 <= j <= k ==> !NormalAt(initial, steps, done, j)
    ensures !FlowSucceeds(initial, steps, done)
  {
  }

  lemma WholeFlow(initial: Intent, steps: nat -> StepAnswers, done: Doing)
    requires forall j :: 0 <= j < StepBudget(initial) ==> StepDone(initial, steps, done, j) && !NormalAt(initial, steps, done, j)
    ensures FlowSucceeds(initial, steps, done) <==> HighLevel(initial)
  {
  }

  method RunFlow(intent: Intent, steps: nat -> StepAnswers, done: Doing) returns (solved: bool)
    ensures solved == FlowSucceeds(intent, steps, done)
  {
    var current := intent;
    var step := 0;
    while step < StepBudget(intent)
      invariant 0 <= step <= StepBudget(intent)
      invariant step > 0 ==> current == Latest(IntentBefore(intent, steps, step - 1), steps(step - 1).post)
      invariant step == 0 ==> current == intent
      invariant forall j :: 0 <= j < step ==> StepDone(intent, steps, done, j) && !NormalAt(intent, steps, done, j)
    {
      if step > 0 && steps(step).refresh.Some? {
        current := steps(step).refresh.value;
      }
      assert current == IntentBefore(intent, steps, step);
      if current == Normal {
        NormalEndsFlow(intent, steps, done, step);
        return true;
      }
      if !done(current, step) {
        StuckFlowFails(intent, steps, done, step);
        return false;
      }
      if steps(step).post.Some? {
        current := steps(step).post.value;
        if current == Normal {
          NormalEndsFlow(intent, steps, done, step);
          return true;
        }
      }
      step := step + 1;
    }
    WholeFlow(intent, steps, done);
    return HighLevel(intent) && step > 0;
  }
}

// The popup hand-off between a click (autoSwitchSession) and the browser guard:
// internal/bridge/tab_auto_switch.go and tab_popup_guard.go. A slot stands for one
// pendingClickSlot, whose channel holds at most one popup.

module PopupHandOff {
  import opened GoText

  type Target = string
  type SlotId = nat

  // pendingClicks and the contents of every slot's channel.
  datatype Slots = Slots(pending: map<Target, SlotId>, captured: map<SlotId, Option<Target>>, next: SlotId)

  // ---------------------------------------------------------------- the three locked sections

  function Mark(t: Slots, opener: Target): Slots {
    Slots(t.pending[opener := t.next], t.captured[t.next := None], t.next + 1)
  }

  function Content(t: Slots, slot: SlotId): Option<Target> {
    if slot in t.captured then t.captured[slot] else None
  }

  // clearPendingClick: only the slot still registered for the opener is removed and drained.
  function Clear(t: Slots, opener: Target, slot: SlotId): (Slots, Option<Target>) {
    if opener in t.pending && t.pending[opener] == slot then
      (Slots(t.pending - {opener}, t.captured[slot := None], t.next), Content(t, slot))
    else (t, None)
  }

  // claimPendingPopup: delivered if a click is pending and its slot is empty.
  function Claim(t: Slots, opener: Target, popup: Target): (Slots, bool) {
    if opener in t.pending && Content(t, t.pending[opener]) == None then
      (t.(captured := t.captured[t.pending[opener] := Some(popup)]), true)
    else (t, false)
  }

  class PopupTable {
    var pending: map<Target, SlotId>
    var captured: map<SlotId, Option<Target>>
    var next: SlotId

    ghost function View(): Slots
      reads this
    {
      Slots(pending, captured, next)
    }

    constructor ()
      ensures View() == Slots(map[], map[], 0)
    {
      pending, captured, next := map[], map[], 0;
    }

    method MarkPendingClick(opener: Target) returns (slot: Option<SlotId>)
      modifies this
      ensures opener == "" ==> slot == None && View() == old(View())
      ensures opener != "" ==> slot == Some(old(next)) && View() == Mark(old(View()), opener)
      ensures opener != "" ==>
                && pending == old(pending)[opener := old(next)] && next == old(next) + 1
                && captured == old(captured)[old(next) := None]
    {
      if opener == "" {
        return None;
      }
      slot := Some(next);
      captured := captured[next := None];
      pending := pending[opener := next];
      next := next + 1;
    }

    method ClearPendingClick(opener: Target, slot: SlotId) returns (drained: Option<Target>)
      modifies this
      ensures opener != "" ==> (View(), drained) == Clear(old(View()), opener, slot)
      ensures opener == "" ==> View() == old(View()) && drained == None
      ensures var mine := opener != "" && opener in old(pending) && old(pending)[opener] == slot;
              && (!mine ==> View() == old(View()) && drained == None)
              && (mine ==>
                    && pending == old(pending) - {opener} && next == old(next)
                    && drained == (if slot in old(captured) then old(captured)[slot] else None)
                    && captured == old(captured)[slot := None])
    {
      if opener == "" || opener !in pending || pending[opener] != slot {
        return None;
      }
      pending := pending - {opener};
      drained := if slot in captured then captured[slot] else None;
      captured := captured[slot := None];
    }

    method ClaimPendingPopup(opener: Target, popup: Target) returns (claimed: bool)
      modifies this
      ensures opener != "" ==> (View(), claimed) == Claim(old(View()), opener, popup)
      ensures opener == "" ==> View() == old(View()) && !claimed
      ensures claimed <==>
                && opener != "" && opener in old(pending)
                && (old(pending)[opener] in old(captured) ==> old(captured)[old(pending)[opener]] == None)
      ensures if claimed then pending == old(pending) && next == old(next) && captured == old(captured)[old(pending)[opener] := Some(popup)]
              else View() == old(View())
    {
      if opener == "" || opener !in pending {
        return false;
      }
      var slot := pending[opener];
      if slot in captured && captured[slot].Some? {
        return false;
      }
      captured := captured[slot := Some(popup)];
      return true;
    }
  }

  // ---------------------------------------------------------------- sessions and the guard as a machine

  // A click from markPendingClick to the end of finish or cancel. After a popup was received, finish
  // still clears the slot (Holding) before it adopts (Adopting).
  datatype Phase = Waiting | Holding(popup: Target) | Adopting(popup: Target) | Done

  datatype Session = Session(opener: Target, slot: SlotId, phase: Phase)

  // Where a popup is, or what became of it. `Dropped` popups were drained by the clear whose result
  // finish ignores.
  datatype Place = InSlot(slot: SlotId) | HeldBy(click: nat) | ClosedByGuard | Adopted | ClosedByClick | Dropped

  // `place` records for every popup that has arrived the place the actions moved it to. `offered` lists
  // the slots that were registered when a popup arrived for their opener.
  datatype State = State(
    slots: Slots,
    sessions: map<nat, Session>,
    place: map<Target, Place>,
    offered: set<SlotId>)

  const INITIAL := State(Slots(map[], map[], 0), map[], map[], {})

  datatype Action =
    | Begin(click: nat, opener: Target)
    | Arrive(popup: Target, opener: Target)
    | Receive(click: nat)
    | GiveUp(click: nat)
    | ClearAfterReceive(click: nat)
    | Adopt(click: nat, succeeds: bool)

  // Chrome announces each target once; the rest is the program order inside one click.
  predicate Enabled(s: State, a: Action) {
    match a
    case Begin(c, opener) => c !in s.sessions && opener != ""
    case Arrive(popup, opener) => popup !in s.place && opener != ""
    case Receive(c) => c in s.sessions && s.sessions[c].phase.Waiting? && Content(s.slots, s.sessions[c].slot).Some?
    case GiveUp(c) => c in s.sessions && s.sessions[c].phase.Waiting?
    case ClearAfterReceive(c) => c in s.sessions && s.sessions[c].phase.Holding?
    case Adopt(c, _) => c in s.sessions && s.sessions[c].phase.Adopting?
  }

  function SetPhase(s: State, c: nat, p: Phase): map<nat, Session>
    requires c in s.sessions
  {
    s.sessions[c := s.sessions[c].(phase := p)]
  }

  function Moved(place: map<Target, Place>, popup: Option<Target>, to: Place): map<Target, Place> {
    if popup.Some? then place[popup.value := to] else place
  }

  function Apply(s: State, a: Action): State
    requires Enabled(s, a)
  {
    match a
    case Begin(c, opener) =>
      s.(slots := Mark(s.slots, opener), sessions := s.sessions[c := Session(opener, s.slots.next, Waiting)])
    case Arrive(popup, opener) =>
      var (t, claimed) := Claim(s.slots, opener, popup);
      State(t, s.sessions,
            s.place[popup := if claimed then InSlot(s.slots.pending[opener]) else ClosedByGuard],
            if opener in s.slots.pending then s.offered + {s.slots.pending[opener]} else s.offered)
    case Receive(c) =>
      var slot := s.sessions[c].slot;
      var popup := Content(s.slots, slot).value;
      State(s.slots.(captured := s.slots.captured[slot := None]), SetPhase(s, c, Holding(popup)),
            s.place[popup := HeldBy(c)], s.offered)
    case GiveUp(c) =>
      var (t, drained) := Clear(s.slots, s.sessions[c].opener, s.sessions[c].slot);
      State(t, SetPhase(s, c, Done), Moved(s.place, drained, ClosedByClick), s.offered)
    case ClearAfterReceive(c) =>
      var (t, drained) := Clear(s.slots, s.sessions[c].opener, s.sessions[c].slot);
      State(t, SetPhase(s, c, Adopting(s.sessions[c].phase.popup)), Moved(s.place, drained, Dropped), s.offered)
    case Adopt(c, succeeds) =>
      s.(sessions := SetPhase(s, c, Done),
         place := s.place[s.sessions[c].phase.popup := if succeeds then Adopted else ClosedByClick])
  }

  // ---------------------------------------------------------------- conservation, with no assumptions

  // The popup's recorded place is what the channels and the clicks really hold.
  predicate Holds(s: State, place: Place, popup: Target) {
    match place
    case InSlot(slot) => Content(s.slots, slot) == Some(popup)
    case HeldBy(c) => c in s.sessions && (s.sessions[c].phase == Holding(popup) || s.sessions[c].phase == Adopting(popup))
    case _ => popup in s.place && s.place[popup] == place
  }

  ghost predicate PlacesAreTrue(s: State) {
    forall popup, place :: Holds(s, place, popup) <==> popup in s.place && s.place[popup] == place
  }

  ghost predicate SlotsAreOwned(s: State) {
    && (forall slot :: slot in s.slots.captured || slot in s.slots.pending.Values || slot in s.offered ==> slot < s.slots.next)
    && (forall c :: c in s.sessions ==> s.sessions[c].slot < s.slots.next)
    && (forall c, d :: c in s.sessions && d in s.sessions && s.sessions[c].slot == s.sessions[d].slot ==> c == d)
    && (forall o :: o in s.slots.pending ==> exists c :: Registered(s, c, o))
    && (forall slot :: Content(s.slots, slot).Some? ==> slot in s.offered)
  }

  ghost predicate Inv(s: State) {
    PlacesAreTrue(s) && SlotsAreOwned(s)
  }

  // The click whose slot is the one registered for the opener; it has not cleared it yet.
  predicate Registered(s: State, c: nat, opener: Target) {
    && opener in s.slots.pending
    && c in s.sessions
    && s.sessions[c].opener == opener
    && s.sessions[c].slot == s.slots.pending[opener]
    && (s.sessions[c].phase.Waiting? || s.sessions[c].phase.Holding?)
  }

  lemma InitialInv()
    ensures Inv(INITIAL)
  {
  }

  lemma FreshSlotIsEmpty(s: State, opener: Target)
    requires Inv(s)
    ensures forall slot :: Content(Mark(s.slots, opener), slot) == Content(s.slots, slot)
  {
  }

  lemma BeginKeepsInv(s: State, a: Action)
    requires Inv(s) && Enabled(s, a) && a.Begin?
    ensures Inv(Apply(s, a))
  {
    var s' := Apply(s, a);
    FreshSlotIsEmpty(s, a.opener);
    forall popup, place ensures Holds(s', place, popup) <==> Holds(s, place, popup) {
      match place
      case InSlot(slot) => assert Content(s'.slots, slot) == Content(s.slots, slot);
      case _ =>
    }
    forall o | o in s'.slots.pending ensures exists c :: Registered(s', c, o) {
      if o == a.opener {
        assert Registered(s', a.click, o);
      } else {
        var c :| Registered(s, c, o);
        assert Registered(s', c, o);
      }
    }
  }

  lemma ArriveKeepsOwners(s: State, a: Action)
    requires SlotsAreOwned(s) && Enabled(s, a) && a.Arrive?
    ensures SlotsAreOwned(Apply(s, a))
  {
    var s' := Apply(s, a);
    forall o | o in s'.slots.pending ensures exists c :: Registered(s', c, o) {
      var c :| Registered(s, c, o);
      assert Registered(s', c, o);
    }
    hide Apply, Enabled;
  }

  lemma ArriveKeepsInv(s: State, a: Action)
    requires Inv(s) && Enabled(s, a) && a.Arrive?
    ensures Inv(Apply(s, a))
  {
    var s' := Apply(s, a);
    ArriveKeepsOwners(s, a);
    forall popup, place ensures Holds(s', place, popup) <==> popup in s'.place && s'.place[popup] == place {
      assert Holds(s, place, popup) <==> popup in s.place && s.place[popup] == place;
    }
  }

  // A click that moves on keeps the slots owned as long as its own slot, if still registered, remains
  // its to clear.
  lemma PhaseChangeKeepsOwners(s: State, s': State, c: nat, phase: Phase)
    requires SlotsAreOwned(s) && c in s.sessions
    requires s'.sessions == SetPhase(s, c, phase) && s'.offered == s.offered && s'.slots.next == s.slots.next
    requires forall o :: o in s'.slots.pending ==> o in s.slots.pending && s'.slots.pending[o] == s.slots.pending[o]
    requires forall slot :: slot in s'.slots.captured ==> slot < s.slots.next
    requires forall slot :: Content(s'.slots, slot).Some? ==> Content(s.slots, slot).Some?
    requires phase.Waiting? || phase.Holding? || !Registered(s, c, s.sessions[c].opener) || s.sessions[c].opener !in s'.slots.pending
    ensures SlotsAreOwned(s')
  {
    OwnersRemain(s, s', c, phase);
    hide Content, Registered;
    assert forall slot :: slot in s'.slots.pending.Values ==> slot in s.slots.pending.Values;
  }

  lemma OwnersRemain(s: State, s': State, c: nat, phase: Phase)
    requires SlotsAreOwned(s) && c in s.sessions && s'.sessions == SetPhase(s, c, phase)
    requires forall o :: o in s'.slots.pending ==> o in s.slots.pending && s'.slots.pending[o] == s.slots.pending[o]
    requires phase.Waiting? || phase.Holding? || !Registered(s, c, s.sessions[c].opener) || s.sessions[c].opener !in s'.slots.pending
    ensures forall o :: o in s'.slots.pending ==> exists d :: Registered(s', d, o)
  {
    hide Content;
    forall o | o in s'.slots.pending ensures exists d :: Registered(s', d, o) {
      var d :| Registered(s, d, o);
      assert Registered(s', d, o);
    }
  }

  lemma ClickStepKeepsOwners(s: State, a: Action)
    requires SlotsAreOwned(s) && Enabled(s, a) && !a.Begin? && !a.Arrive?
    ensures SlotsAreOwned(Apply(s, a))
  {
    var s' := Apply(s, a);
    PhaseChangeKeepsOwners(s, s', a.click, s'.sessions[a.click].phase);
  }

  lemma ReceiveKeepsPlaces(s: State, c: nat)
    requires PlacesAreTrue(s) && Enabled(s, Receive(c))
    ensures PlacesAreTrue(Apply(s, Receive(c)))
  {
    var s' := Apply(s, Receive(c));
    forall popup, place ensures Holds(s', place, popup) <==> popup in s'.place && s'.place[popup] == place {
      assert Holds(s, place, popup) <==> popup in s.place && s.place[popup] == place;
      assert Holds(s, InSlot(s.sessions[c].slot), popup) <==> popup in s.place && s.place[popup] == InSlot(s.sessions[c].slot);
    }
  }

  // A click that moves on from `from` to `to`, keeping what it holds, while its slot may be drained to
  // `left`.
  lemma ClearKeepsPlaces(s: State, c: nat, phase: Phase, left: Place)
    requires PlacesAreTrue(s) && c in s.sessions && left in {ClosedByClick, Dropped}
    requires forall popup :: (s.sessions[c].phase in {Holding(popup), Adopting(popup)}) <==> (phase in {Holding(popup), Adopting(popup)})
    ensures var (t, drained) := Clear(s.slots, s.sessions[c].opener, s.sessions[c].slot);
            PlacesAreTrue(State(t, SetPhase(s, c, phase), Moved(s.place, drained, left), s.offered))
  {
    var slot := s.sessions[c].slot;
    var (t, drained) := Clear(s.slots, s.sessions[c].opener, slot);
    var s' := State(t, SetPhase(s, c, phase), Moved(s.place, drained, left), s.offered);
    forall popup, place ensures Holds(s', place, popup) <==> popup in s'.place && s'.place[popup] == place {
      assert Holds(s, place, popup) <==> popup in s.place && s.place[popup] == place;
      assert Holds(s, InSlot(slot), popup) <==> popup in s.place && s.place[popup] == InSlot(slot);
    }
  }

  lemma AdoptKeepsPlaces(s: State, c: nat, succeeds: bool)
    requires PlacesAreTrue(s) && Enabled(s, Adopt(c, succeeds))
    ensures PlacesAreTrue(Apply(s, Adopt(c, succeeds)))
  {
    var s' := Apply(s, Adopt(c, succeeds));
    forall popup, place ensures Holds(s', place, popup) <==> popup in s'.place && s'.place[popup] == place {
      assert Holds(s, place, popup) <==> popup in s.place && s.place[popup] == place;
      assert Holds(s, HeldBy(c), popup) <==> popup in s.place && s.place[popup] == HeldBy(c);
    }
  }

  lemma ClickStepKeepsInv(s: State, a: Action)
    requires Inv(s) && Enabled(s, a) && !a.Begin? && !a.Arrive?
    ensures Inv(Apply(s, a))
  {
    ClickStepKeepsOwners(s, a);
    match a
    case Receive(c) => ReceiveKeepsPlaces(s, c);
    case GiveUp(c) => ClearKeepsPlaces(s, c, Done, ClosedByClick);
    case ClearAfterReceive(c) => ClearKeepsPlaces(s, c, Adopting(s.sessions[c].phase.popup), Dropped);
    case Adopt(c, succeeds) => AdoptKeepsPlaces(s, c, succeeds);
  }

  lemma StepKeepsInv(s: State, a: Action)
    requires Inv(s) && Enabled(s, a)
    ensures Inv(Apply(s, a))
  {
    if a.Begin? {
      BeginKeepsInv(s, a);
    } else if a.Arrive? {
      ArriveKeepsInv(s, a);
    } else {
      ClickStepKeepsInv(s, a);
    }
  }

  // ---------------------------------------------------------------- runs

  ghost predicate Run(s: State, actions: seq<Action>, end: State)
    decreases |actions|
  {
    if actions == [] then end == s
    else Enabled(s, actions[0]) && Run(Apply(s, actions[0]), actions[1..], end)
  }

  lemma {:induction false} RunKeepsInv(s: State, actions: seq<Action>, end: State)
    requires Inv(s) && Run(s, actions, end)
    ensures Inv(end)
    decreases |actions|
  {
    if actions != [] {
      StepKeepsInv(s, actions[0]);
      RunKeepsInv(Apply(s, actions[0]), actions[1..], end);
    }
  }

  // In every interleaving a popup that has arrived is in exactly one place. In particular a popup the
  // guard closes is never also delivered to a click, and none is both adopted and closed.
  lemma PopupsAreConserved(actions: seq<Action>, s: State, popup: Target)
    requires Run(INITIAL, actions, s)
    ensures popup in s.place <==> exists place :: Holds(s, place, popup)
    ensures forall p, q :: Holds(s, p, popup) && Holds(s, q, popup) ==> p == q
  {
    InitialInv();
    RunKeepsInv(INITIAL, actions, s);
    if popup in s.place {
      assert Holds(s, s.place[popup], popup);
    }
  }

  // A popup that was adopted or closed stays that way: it happens to each popup at most once.
  predicate Settled(place: Place) {
    place.ClosedByGuard? || place.Adopted? || place.ClosedByClick?
  }

  lemma {:induction false} SettledForGood(s: State, actions: seq<Action>, end: State, popup: Target)
    requires Inv(s) && Run(s, actions, end)
    requires popup in s.place && Settled(s.place[popup])
    ensures popup in end.place && end.place[popup] == s.place[popup]
    decreases |actions|
  {
    if actions != [] {
      var a := actions[0];
      var s' := Apply(s, a);
      StepKeepsInv(s, a);
      if !a.Begin? && !a.Arrive? {
        var slot := s.sessions[a.click].slot;
        assert !Holds(s, InSlot(slot), popup) && !Holds(s, HeldBy(a.click), popup);
      }
      assert s'.place[popup] == s.place[popup];
      SettledForGood(s', actions[1..], end, popup);
    }
  }

  // ---------------------------------------------------------------- what becomes of a popup

  // The popups that are in a click's slot.
  predicate Waits(s: State, popup: Target, slot: SlotId) {
    popup in s.place && s.place[popup] == InSlot(slot)
  }

  // All popups are where they were, but for this one.
  ghost predicate OnlyMoves(s: State, s': State, popup: Target) {
    s.place - {popup} == s'.place - {popup}
  }

  // Step by step: a popup goes to the slot of the click registered for its opener, if there is one and
  // nothing waits in its slot, and is closed otherwise; the click that receives takes what waits in its
  // slot and in the end adopts it, or closes it if that fails; what still waits when the click clears a slot
  // that is registered for it is closed by a click that gave up and dropped by one that received.
  lemma DeliveryIsExact(s: State, a: Action)
    requires Inv(s) && Enabled(s, a)
    ensures var s' := Apply(s, a);
            match a
            case Begin(c, opener) => s'.place == s.place && Registered(s', c, opener)
            case Arrive(popup, opener) =>
              && OnlyMoves(s, s', popup) && popup in s'.place
              && (forall c :: Registered(s, c, opener) && (forall other :: !Waits(s, other, s.sessions[c].slot)) ==>
                    s'.place[popup] == InSlot(s.sessions[c].slot))
              && (forall c :: Registered(s, c, opener) && (exists other :: Waits(s, other, s.sessions[c].slot)) ==>
                    s'.place[popup] == ClosedByGuard)
              && ((forall c :: !Registered(s, c, opener)) ==> s'.place[popup] == ClosedByGuard)
            case Receive(c) =>
              exists popup :: Waits(s, popup, s.sessions[c].slot) && s'.sessions[c].phase == Holding(popup)
                && OnlyMoves(s, s', popup) && popup in s'.place && s'.place[popup] == HeldBy(c)
            case GiveUp(c) => s'.sessions[c].phase == Done && Cleared(s, s', c, ClosedByClick)
            case ClearAfterReceive(c) => s'.sessions[c].phase == Adopting(s.sessions[c].phase.popup) && Cleared(s, s', c, Dropped)
            case Adopt(c, succeeds) =>
              var popup := s.sessions[c].phase.popup;
              && s'.sessions[c].phase == Done && OnlyMoves(s, s', popup)
              && popup in s'.place && s'.place[popup] == if succeeds then Adopted else ClosedByClick
  {
    match a
    case Begin(_, _) =>
    case Arrive(popup, opener) => ArrivalIsExact(s, popup, opener);
    case Receive(c) => ReceiptIsExact(s, c);
    case GiveUp(c) => ClearIsExact(s, c, Done, ClosedByClick);
    case ClearAfterReceive(c) => ClearIsExact(s, c, Adopting(s.sessions[c].phase.popup), Dropped);
    case Adopt(_, _) =>
  }

  lemma ReceiptIsExact(s: State, c: nat)
    requires Inv(s) && Enabled(s, Receive(c))
    ensures var s' := Apply(s, Receive(c));
            exists popup :: Waits(s, popup, s.sessions[c].slot) && s'.sessions[c].phase == Holding(popup)
              && OnlyMoves(s, s', popup) && popup in s'.place && s'.place[popup] == HeldBy(c)
  {
    var slot := s.sessions[c].slot;
    var popup := Content(s.slots, slot).value;
    assert Holds(s, InSlot(slot), popup);
    assert Waits(s, popup, slot);
  }

  lemma ClearIsExact(s: State, c: nat, phase: Phase, left: Place)
    requires Inv(s) && c in s.sessions && (s.sessions[c].phase.Waiting? || s.sessions[c].phase.Holding?)
    ensures var (t, drained) := Clear(s.slots, s.sessions[c].opener, s.sessions[c].slot);
            Cleared(s, State(t, SetPhase(s, c, phase), Moved(s.place, drained, left), s.offered), c, left)
  {
    var slot := s.sessions[c].slot;
    forall popup ensures Waits(s, popup, slot) <==> Content(s.slots, slot) == Some(popup) {
      assert Holds(s, InSlot(slot), popup) <==> Waits(s, popup, slot);
    }
    if Content(s.slots, slot).Some? {
      assert Waits(s, Content(s.slots, slot).value, slot);
    }
  }

  ghost predicate Cleared(s: State, s': State, c: nat, left: Place)
    requires c in s.sessions
  {
    var k := s.sessions[c];
    if Registered(s, c, k.opener) && exists popup :: Waits(s, popup, k.slot) then
      exists popup :: Waits(s, popup, k.slot) && OnlyMoves(s, s', popup) && popup in s'.place && s'.place[popup] == left
    else s'.place == s.place
  }

  lemma ArrivalIsExact(s: State, popup: Target, opener: Target)
    requires Inv(s) && Enabled(s, Arrive(popup, opener))
    ensures var s' := Apply(s, Arrive(popup, opener));
            && OnlyMoves(s, s', popup) && popup in s'.place
            && (forall c :: Registered(s, c, opener) && (forall other :: !Waits(s, other, s.sessions[c].slot)) ==>
                  s'.place[popup] == InSlot(s.sessions[c].slot))
            && (forall c :: Registered(s, c, opener) && (exists other :: Waits(s, other, s.sessions[c].slot)) ==>
                  s'.place[popup] == ClosedByGuard)
            && ((forall c :: !Registered(s, c, opener)) ==> s'.place[popup] == ClosedByGuard)
  {
    if opener in s.slots.pending {
      var slot := s.slots.pending[opener];
      var c :| Registered(s, c, opener);
      forall other ensures Waits(s, other, slot) <==> Content(s.slots, slot) == Some(other) {
        assert Holds(s, InSlot(slot), other) <==> Waits(s, other, slot);
      }
      if Content(s.slots, slot).Some? {
        assert Waits(s, Content(s.slots, slot).value, slot);
      }
    }
  }

  // ---------------------------------------------------------------- when a popup is lost

  // A lost popup was drained and ignored, or sits in the slot of a click that will not look again.
  ghost predicate Lost(s: State, popup: Target) {
    && popup in s.place
    && (s.place[popup] == Dropped || (s.place[popup].InSlot? && Abandoned(s, s.place[popup].slot)))
  }

  ghost predicate Abandoned(s: State, slot: SlotId) {
    exists c :: Past(s, c, slot)
  }

  // The click has cleared its slot, or tried to.
  predicate Past(s: State, c: nat, slot: SlotId) {
    c in s.sessions && s.sessions[c].slot == slot && (s.sessions[c].phase.Adopting? || s.sessions[c].phase.Done?)
  }

  // The steps that can lose a popup are the two clears, each with a popup still in the slot: the one in
  // finish always does, the one in cancel does when the opener's slot has been replaced.
  predicate LosesPopup(s: State, a: Action)
    requires Enabled(s, a)
  {
    match a
    case ClearAfterReceive(c) => Content(s.slots, s.sessions[c].slot).Some?
    case GiveUp(c) =>
      var opener, slot := s.sessions[c].opener, s.sessions[c].slot;
      Content(s.slots, slot).Some? && !(opener in s.slots.pending && s.slots.pending[opener] == slot)
    case _ => false
  }

  lemma AbandonedIsUnregistered(s: State, slot: SlotId)
    requires Inv(s) && Abandoned(s, slot)
    ensures forall o :: o in s.slots.pending ==> s.slots.pending[o] != slot
  {
  }

  lemma LostStaysLost(s: State, a: Action, popup: Target)
    requires Inv(s) && Enabled(s, a) && Lost(s, popup)
    ensures Lost(Apply(s, a), popup)
  {
    var s' := Apply(s, a);
    var place := s.place[popup];
    assert Holds(s, place, popup);
    if place.InSlot? {
      AbandonedIsUnregistered(s, place.slot);
      var c :| Past(s, c, place.slot);
      assert Past(s', c, place.slot);
      if !a.Begin? && !a.Arrive? {
        assert !Holds(s, HeldBy(a.click), popup);
        assert a.Adopt? || (a.click != c && s.sessions[a.click].slot != place.slot);
        assert a.Adopt? || !Holds(s, InSlot(s.sessions[a.click].slot), popup);
      }
      assert s'.place[popup] == place;
    } else if !a.Begin? && !a.Arrive? {
      assert !Holds(s, HeldBy(a.click), popup) && !Holds(s, InSlot(s.sessions[a.click].slot), popup);
    }
  }

  lemma OnlyClearsLose(s: State, a: Action, popup: Target)
    requires Inv(s) && Enabled(s, a) && !LosesPopup(s, a)
    requires Lost(Apply(s, a), popup)
    ensures Lost(s, popup)
  {
    var s' := Apply(s, a);
    StepKeepsInv(s, a);
    assert Holds(s', s'.place[popup], popup);
    if s'.place[popup].InSlot? {
      var slot := s'.place[popup].slot;
      AbandonedIsUnregistered(s', slot);
      var c :| Past(s', c, slot);
      assert Past(s, c, slot);
      assert Holds(s, InSlot(slot), popup);
    }
  }

  // A step loses a popup exactly when it is one of those two clears, and what is lost stays lost.
  lemma LossIsExactly(s: State, a: Action)
    requires Inv(s) && Enabled(s, a)
    ensures LosesPopup(s, a) <==> exists popup :: !Lost(s, popup) && Lost(Apply(s, a), popup)
    ensures forall popup :: Lost(s, popup) ==> Lost(Apply(s, a), popup)
  {
    forall popup | Lost(s, popup) ensures Lost(Apply(s, a), popup) {
      LostStaysLost(s, a, popup);
    }
    if LosesPopup(s, a) {
      var s' := Apply(s, a);
      var c := a.click;
      var slot := s.sessions[c].slot;
      var popup := Content(s.slots, slot).value;
      assert Holds(s, InSlot(slot), popup);
      assert !Lost(s, popup);
      assert Past(s', c, slot);
      assert Lost(s', popup);
    } else {
      forall popup | Lost(Apply(s, a), popup) ensures Lost(s, popup) {
        OnlyClearsLose(s, a, popup);
      }
    }
  }

  // ---------------------------------------------------------------- the conditions under which none is lost

  // Clicks on one opener do not overlap, and while a click is registered at most one popup arrives.
  predicate OneClickAtATime(s: State, a: Action) {
    a.Begin? ==> a.opener !in s.slots.pending
  }

  predicate OnePopupPerClick(s: State, a: Action) {
    a.Arrive? && a.opener in s.slots.pending ==> s.slots.pending[a.opener] !in s.offered
  }

  ghost predicate CarefulRun(s: State, actions: seq<Action>, end: State)
    decreases |actions|
  {
    if actions == [] then end == s
    else
      var a := actions[0];
      Enabled(s, a) && OneClickAtATime(s, a) && OnePopupPerClick(s, a) && CarefulRun(Apply(s, a), actions[1..], end)
  }

  ghost predicate CarefulInv(s: State) {
    && Inv(s)
    && (forall c :: c in s.sessions ==> CarefulClick(s, c))
    && (forall slot :: slot in s.slots.captured ==> exists c :: Owns(s, c, slot))
  }

  predicate Owns(s: State, c: nat, slot: SlotId) {
    c in s.sessions && s.sessions[c].slot == slot
  }

  ghost predicate CarefulClick(s: State, c: nat)
    requires c in s.sessions
  {
    var k := s.sessions[c];
    && (k.phase.Waiting? || k.phase.Holding? ==> Registered(s, c, k.opener))
    && (!k.phase.Waiting? ==> Content(s.slots, k.slot) == None)
    && (k.phase.Holding? ==> k.slot in s.offered)
  }

  lemma SlotsStayOwned(s: State, a: Action)
    requires CarefulInv(s) && Enabled(s, a)
    ensures forall slot :: slot in Apply(s, a).slots.captured ==> exists c :: Owns(Apply(s, a), c, slot)
  {
    var s' := Apply(s, a);
    forall slot | slot in s'.slots.captured ensures exists c :: Owns(s', c, slot) {
      if slot in s.slots.captured {
        var c :| Owns(s, c, slot);
        assert Owns(s', c, slot);
      } else if a.Begin? {
        assert Owns(s', a.click, slot);
      } else if a.Arrive? {
        var d :| Registered(s, d, a.opener);
        assert Owns(s', d, slot);
      } else {
        assert Owns(s', a.click, slot);
      }
    }
  }

  lemma CarefulBegin(s: State, a: Action, c: nat)
    requires CarefulInv(s) && Enabled(s, a) && OneClickAtATime(s, a) && a.Begin?
    requires c in Apply(s, a).sessions
    ensures CarefulClick(Apply(s, a), c)
  {
  }

  lemma CarefulArrive(s: State, a: Action, c: nat)
    requires CarefulInv(s) && Enabled(s, a) && OnePopupPerClick(s, a) && a.Arrive?
    requires c in s.sessions
    ensures CarefulClick(Apply(s, a), c)
  {
    assert CarefulClick(s, c);
    if a.opener in s.slots.pending {
      var d :| Registered(s, d, a.opener);
      assert CarefulClick(s, d);
      assert c == d || s.sessions[c].slot != s.sessions[d].slot;
    }
  }

  lemma CarefulClickStep(s: State, a: Action, c: nat)
    requires CarefulInv(s) && Enabled(s, a) && !a.Begin? && !a.Arrive?
    requires c in s.sessions
    ensures CarefulClick(Apply(s, a), c)
  {
    assert CarefulClick(s, c) && CarefulClick(s, a.click);
    assert c == a.click || s.sessions[c].slot != s.sessions[a.click].slot;
    assert Content(s.slots, s.sessions[a.click].slot).Some? ==> s.sessions[a.click].slot in s.offered;
  }

  lemma CarefulStep(s: State, a: Action)
    requires CarefulInv(s) && Enabled(s, a) && OneClickAtATime(s, a) && OnePopupPerClick(s, a)
    ensures CarefulInv(Apply(s, a))
    ensures !LosesPopup(s, a)
  {
    var s' := Apply(s, a);
    StepKeepsInv(s, a);
    SlotsStayOwned(s, a);
    forall c | c in s'.sessions ensures CarefulClick(s', c) {
      if a.Begin? {
        CarefulBegin(s, a, c);
      } else if a.Arrive? {
        CarefulArrive(s, a, c);
      } else {
        CarefulClickStep(s, a, c);
      }
    }
    if !a.Begin? && !a.Arrive? {
      assert CarefulClick(s, a.click);
    }
  }

  lemma {:induction false} CarefulRunKeeps(s: State, actions: seq<Action>, end: State)
    requires CarefulInv(s) && CarefulRun(s, actions, end)
    requires forall popup :: !Lost(s, popup)
    ensures CarefulInv(end)
    ensures forall popup :: !Lost(end, popup)
    decreases |actions|
  {
    if actions != [] {
      CarefulStep(s, actions[0]);
      LossIsExactly(s, actions[0]);
      CarefulRunKeeps(Apply(s, actions[0]), actions[1..], end);
    }
  }

  // With non-overlapping clicks and one popup per click no popup is ever lost; once every click has
  // ended, each popup that arrived was adopted or closed and no slot holds one.
  lemma CarefulRunsLoseNothing(actions: seq<Action>, s: State)
    requires CarefulRun(INITIAL, actions, s)
    ensures forall popup :: !Lost(s, popup)
    ensures (forall c :: c in s.sessions ==> s.sessions[c].phase.Done?) ==>
              && (forall popup :: popup in s.place ==> Settled(s.place[popup]))
              && (forall slot :: Content(s.slots, slot) == None)
              && s.slots.pending == map[]
  {
    InitialInv();
    CarefulRunKeeps(INITIAL, actions, s);
    if forall c :: c in s.sessions ==> s.sessions[c].phase.Done? {
      assert forall c :: c in s.sessions ==> CarefulClick(s, c);
      forall o ensures o !in s.slots.pending {
        assert forall c :: !Registered(s, c, o);
      }
      assert forall c, slot :: Owns(s, c, slot) ==> Content(s.slots, slot) == None;
      forall popup | popup in s.place ensures Settled(s.place[popup]) {
        assert Holds(s, s.place[popup], popup);
        assert !Lost(s, popup);
      }
    }
  }

  // Neither condition can be dropped. Two overlapping clicks: the first click's popup stays in the slot
  // that the second click replaced.
  lemma OverlapLosesAPopup(opener: Target, popup: Target)
    requires opener != ""
    ensures exists s :: Run(INITIAL, [Begin(0, opener), Arrive(popup, opener), Begin(1, opener), GiveUp(0)], s)
                        && Lost(s, popup)
  {
    var s1 := Apply(INITIAL, Begin(0, opener));
    var s2 := Apply(s1, Arrive(popup, opener));
    var s3 := Apply(s2, Begin(1, opener));
    var s4 := Apply(s3, GiveUp(0));
    RunFour(INITIAL, Begin(0, opener), Arrive(popup, opener), Begin(1, opener), GiveUp(0));
    assert s4.place[popup] == InSlot(0);
    assert Past(s4, 0, 0);
    assert Lost(s4, popup);
  }

  // Two popups for one click: the second arrives after the first was received and before the slot is
  // cleared, and the clear's result is ignored.
  lemma SecondPopupIsLost(opener: Target, first: Target, second: Target)
    requires opener != "" && first != second
    ensures var actions := [Begin(0, opener), Arrive(first, opener), Receive(0), Arrive(second, opener)];
            exists s :: Run(INITIAL, actions + [ClearAfterReceive(0)], s) && Lost(s, second)
  {
    var s1 := Apply(INITIAL, Begin(0, opener));
    var s2 := Apply(s1, Arrive(first, opener));
    var s3 := Apply(s2, Receive(0));
    var s4 := Apply(s3, Arrive(second, opener));
    var s5 := Apply(s4, ClearAfterReceive(0));
    RunFour(INITIAL, Begin(0, opener), Arrive(first, opener), Receive(0), Arrive(second, opener));
    RunOneMore(INITIAL, [Begin(0, opener), Arrive(first, opener), Receive(0), Arrive(second, opener)], s4, ClearAfterReceive(0));
    assert Lost(s5, second);
  }

  lemma {:induction false} RunOneMore(s: State, actions: seq<Action>, end: State, a: Action)
    requires Run(s, actions, end) && Enabled(end, a)
    ensures Run(s, actions + [a], Apply(end, a))
    decreases |actions|
  {
    if actions == [] {
      assert [a][1..] == [];
      assert Run(Apply(s, a), [], Apply(s, a));
      assert actions + [a] == [a];
    } else {
      assert (actions + [a])[1..] == actions[1..] + [a];
      RunOneMore(Apply(s, actions[0]), actions[1..], end, a);
    }
  }

  lemma RunFour(s: State, a: Action, b: Action, c: Action, d: Action)
    requires Enabled(s, a) && Enabled(Apply(s, a), b) && Enabled(Apply(Apply(s, a), b), c)
    requires Enabled(Apply(Apply(Apply(s, a), b), c), d)
    ensures Run(s, [a, b, c, d], Apply(Apply(Apply(Apply(s, a), b), c), d))
  {
    assert Run(s, [], s);
    RunOneMore(s, [], s, a);
    RunOneMore(s, [a], Apply(s, a), b);
    RunOneMore(s, [a, b], Apply(Apply(s, a), b), c);
    RunOneMore(s, [a, b, c], Apply(Apply(Apply(s, a), b), c), d);
    assert [] + [a] == [a] && [a] + [b] == [a, b] && [a, b] + [c] == [a, b, c] && [a, b, c] + [d] == [a, b, c, d];
  }
}

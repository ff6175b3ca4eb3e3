/** The manual-input feed and its stop budget (cli/src/attach/feeds/input.rs). */
module InputFeed {
  import opened Wrappers
  import opened PadRegistry
  import opened Joypad

  datatype Request = SelectPad(id: Bytes) | SetAuthority(on: bool) | RescanPads(pads: seq<Gamepad>)

  /** One turn of the loop: a tick with what the backend reports and whether each
      of its two stop publications would succeed, or a request. `delivered`:
      an observation published in this turn reaches its receiver. */
  datatype Turn =
    | Tick(events: seq<PadEvent>, stillConnected: bool, first: bool, second: bool, delivered: bool)
    | Command(request: Request, publishes: bool, delivered: bool)

  /** How the feed ends: the port closed, an observation had no receiver any
      more, or it goes on. */
  datatype Ending = PortClosed | Undelivered | Serving

  /** What leaves the feed, in order, with the changes of authority between;
      `Parting` is a stop sent as the attachment ends. */
  datatype Action =
    | Drive(handle: nat)
    | Stop(sent: bool)
    | Queued
    | Granted
    | Parting(sent: bool)

  ghost predicate WellFormedTurn(turn: Turn) {
    match turn
    case Tick(events, _, _, _, _) =>
      forall i | 0 <= i < |events| :: events[i].PadConnected? ==> WellFormed(events[i].pad)
    case Command(request, _, _) =>
      request.RescanPads? ==> forall i | 0 <= i < |request.pads| :: WellFormed(request.pads[i])
  }

  /** Whether authority is on after `actions`, from the actions alone. */
  ghost function Authority(actions: seq<Action>): bool {
    if actions == [] then false
    else
      match actions[|actions| - 1]
      case Granted => true
      case Queued => false
      case _ => Authority(actions[..|actions| - 1])
  }

  /** The stops still owed after `actions`: three at each queueing, one fewer for
      each stop that was published since. */
  ghost function Owed(actions: seq<Action>): int {
    if actions == [] then 0
    else
      var before := Owed(actions[..|actions| - 1]);
      match actions[|actions| - 1]
      case Queued => STOP_REPEAT_COUNT
      case Stop(sent) => if sent then before - 1 else before
      case _ => before
  }

  /** A pad is obeyed only under authority, a stop is published only while owed. */
  ghost predicate Allowed(before: seq<Action>, action: Action) {
    && (action.Drive? ==> Authority(before))
    && (action.Stop? ==> 0 < Owed(before))
  }

  ghost predicate Disciplined(actions: seq<Action>) {
    actions == [] ||
    var before := actions[..|actions| - 1];
    Disciplined(before) && Allowed(before, actions[|actions| - 1])
  }

  /** `pending` and `authority` are what the actions so far imply. */
  ghost predicate InStep(actions: seq<Action>, pending: int, authority: bool) {
    && Disciplined(actions)
    && pending == Owed(actions) && 0 <= pending <= STOP_REPEAT_COUNT
    && authority == Authority(actions)
  }

  ghost function PendingAfter(pending: int, action: Action): int {
    match action
    case Queued => STOP_REPEAT_COUNT
    case Stop(sent) => if sent then pending - 1 else pending
    case _ => pending
  }

  lemma Followed(actions: seq<Action>, action: Action, pending: int, authority: bool)
    requires InStep(actions, pending, authority)
    requires (action.Drive? ==> authority) && (action.Stop? ==> 0 < pending)
    ensures InStep(actions + [action], PendingAfter(pending, action),
                   action.Granted? || (authority && !action.Queued?))
  {
    assert (actions + [action])[..|actions|] == actions;
  }

  /** The retry of a tick: nothing when no stop is owed. */
  function Retry(pending: nat, sent: bool): seq<Action> {
    if pending == 0 then [] else [Stop(sent)]
  }

  /** What a turn publishes and grants before it may end the feed: `held` and
      `after` are authority before and after it, `owed` the stops before it. */
  function TurnActions(turn: Turn, held: bool, after: bool, owed: nat): seq<Action> {
    match turn
    case Tick(_, _, first, second, _) => Retry(owed, first) + if held && !after then [Queued, Stop(second)] else []
    case Command(_, publishes, _) =>
      if held == after then [] else if after then [Granted] else [Queued, Stop(publishes)]
  }

  /** The stops still owed when the turn ends. */
  function OwedAfter(turn: Turn, held: bool, after: bool, owed: nat): nat {
    match turn
    case Tick(_, _, first, second, _) =>
      if held && !after then Remaining(STOP_REPEAT_COUNT, second) else Remaining(owed, first)
    case Command(_, publishes, _) => if held && !after then Remaining(STOP_REPEAT_COUNT, publishes) else owed
  }

  function Remaining(owed: nat, sent: bool): nat {
    if sent && owed > 0 then owed - 1 else owed
  }

  class Feed {
    const joypad: Pads
    var pendingStops: nat
    ghost var actions: seq<Action>

    ghost predicate Valid()
      reads this, joypad, joypad.registry
    {
      joypad.Valid() && InStep(actions, pendingStops, joypad.registry.enabled)
    }

    constructor (joypad: Pads)
      requires joypad.Valid() && !joypad.registry.enabled
      ensures Valid() && actions == [] && pendingStops == 0 && this.joypad == joypad
    {
      this.joypad := joypad;
      pendingStops := 0;
      actions := [];
    }

    method QueueStop(ghost authority: bool)
      requires InStep(actions, pendingStops, authority)
      modifies this
      ensures actions == old(actions) + [Queued]
      ensures InStep(actions, pendingStops, false) && pendingStops == STOP_REPEAT_COUNT
    {
      Followed(actions, Queued, pendingStops, authority);
      pendingStops := if pendingStops < STOP_REPEAT_COUNT then STOP_REPEAT_COUNT else pendingStops;
      actions := actions + [Queued];
    }

    /** A failed publication keeps the budget for the next tick. */
    method PublishStop(sent: bool, ghost authority: bool)
      requires InStep(actions, pendingStops, authority)
      modifies this
      ensures actions == old(actions) + Retry(old(pendingStops), sent)
      ensures InStep(actions, pendingStops, authority) && pendingStops == Remaining(old(pendingStops), sent)
    {
      if pendingStops == 0 {
        return;
      }
      Followed(actions, Stop(sent), pendingStops, authority);
      if sent {
        pendingStops := pendingStops - 1;
      }
      actions := actions + [Stop(sent)];
    }

    /** An operation that revoked authority queues the stops and sends the first. */
    method Settle(zero: bool, sent: bool, ghost before: bool, ghost after: bool)
      requires InStep(actions, pendingStops, before)
      requires (after ==> before) && (zero <==> before && !after)
      modifies this
      ensures actions == old(actions) + if zero then [Queued, Stop(sent)] else []
      ensures InStep(actions, pendingStops, after)
      ensures pendingStops == if zero then Remaining(STOP_REPEAT_COUNT, sent) else old(pendingStops)
    {
      if zero {
        QueueStop(before);
        PublishStop(sent, false);
      }
    }

    method Obey(handle: nat)
      requires InStep(actions, pendingStops, true)
      modifies this
      ensures actions == old(actions) + [Drive(handle)] && InStep(actions, pendingStops, true)
      ensures pendingStops == old(pendingStops)
    {
      Followed(actions, Drive(handle), pendingStops, true);
      actions := actions + [Drive(handle)];
    }

    /** When the inventory has to be published and is not delivered, the feed ends
        before the pad is obeyed. */
    method OnTick(turn: Turn) returns (ended: bool)
      requires Valid() && turn.Tick? && WellFormedTurn(turn)
      modifies this, joypad.registry
      ensures Valid() && Follows(joypad.backend, turn, old(Now()), Now())
      ensures ended <==> Due(joypad.backend, turn, old(Now())) && !turn.delivered
      ensures actions == old(actions) + Doing(joypad.backend, turn, old(Now()), Now(), old(pendingStops))
      ensures pendingStops == OwedAfter(turn, old(Now()).held, Now().held, old(pendingStops))
    {
      ghost var start := actions;
      var changed, handle := Advance(turn);
      ghost var first := TurnActions(turn, old(Now()).held, Now().held, old(pendingStops));
      ended := changed && !turn.delivered;
      if !ended && handle.Some? {
        Obey(handle.value);
        Appended(start, first, [Drive(handle.value)]);
      }
    }

    /** A tick up to its observation: the retry, the events, the derived command,
        and the stops of a revocation. */
    method Advance(turn: Turn) returns (changed: bool, handle: Option<nat>)
      requires Valid() && turn.Tick? && WellFormedTurn(turn)
      modifies this, joypad.registry
      ensures Valid() && Follows(joypad.backend, turn, old(Now()), Now())
      ensures changed <==> Due(joypad.backend, turn, old(Now()))
      ensures actions == old(actions) + TurnActions(turn, old(Now()).held, Now().held, old(pendingStops))
      ensures pendingStops == OwedAfter(turn, old(Now()).held, Now().held, old(pendingStops))
      ensures handle.Some? ==> Now().held
      ensures Obeyed(joypad.backend, turn.stillConnected, Now()) == if handle.Some? then [Drive(handle.value)] else []
    {
      ghost var authority, start, retry := joypad.registry.enabled, actions, Retry(pendingStops, turn.first);
      PublishStop(turn.first, authority);
      var zero;
      handle, changed, zero := Derive(turn);
      Settle(zero, turn.second, authority, joypad.registry.enabled);
      Appended(start, retry, if zero then [Queued, Stop(turn.second)] else []);
    }

    method Derive(turn: Turn) returns (handle: Option<nat>, changed: bool, zero: bool)
      requires joypad.Valid() && turn.Tick? && WellFormedTurn(turn)
      modifies joypad.registry
      ensures joypad.Valid() && Follows(joypad.backend, turn, old(Now()), Now())
      ensures changed <==> Due(joypad.backend, turn, old(Now()))
      ensures zero <==> old(Now()).held && !Now().held
      ensures handle.Some? ==> Now().held
      ensures Obeyed(joypad.backend, turn.stillConnected, Now()) == if handle.Some? then [Drive(handle.value)] else []
    {
      var polled;
      ghost var trail;
      polled, trail := joypad.Poll(turn.events);
      if joypad.backend {
        PollSteers(turn.events, trail);
      }
      var derived;
      handle, derived := joypad.Command(turn.stillConnected);
      changed := polled.changed || derived.changed;
      zero := polled.zeroRequired || derived.zeroRequired;
    }

    ghost function Now(): Snapshot
      reads joypad.registry
    {
      Snapshot(joypad.registry.entries, joypad.registry.selected, joypad.registry.enabled)
    }

    method Perform(request: Request) returns (zero: bool)
      requires joypad.Valid()
      requires request.RescanPads? ==> forall i | 0 <= i < |request.pads| :: WellFormed(request.pads[i])
      modifies joypad.registry
      ensures joypad.Valid() && Answers(joypad.backend, request, old(Now()), Now())
      ensures zero <==> old(Now()).held && !Now().held
    {
      match request
      case SelectPad(id) => zero := joypad.Select(id);
      case SetAuthority(on) => zero := joypad.SetEnabled(on);
      case RescanPads(pads) => zero := joypad.Rescan(pads);
    }

    /** A request is always answered by an observation. */
    method OnCommand(turn: Turn) returns (ended: bool)
      requires Valid() && turn.Command? && WellFormedTurn(turn)
      modifies this, joypad.registry
      ensures Valid() && Follows(joypad.backend, turn, old(Now()), Now())
      ensures ended <==> Due(joypad.backend, turn, old(Now())) && !turn.delivered
      ensures actions == old(actions) + Doing(joypad.backend, turn, old(Now()), Now(), old(pendingStops))
      ensures pendingStops == OwedAfter(turn, old(Now()).held, Now().held, old(pendingStops))
    {
      ghost var authority := joypad.registry.enabled;
      var zero := Perform(turn.request);
      if zero {
        Settle(zero, turn.publishes, authority, joypad.registry.enabled);
      } else if !authority && joypad.registry.enabled {
        Followed(actions, Granted, pendingStops, authority);
        actions := actions + [Granted];
      }
      ended := !turn.delivered;
    }

    /** The port closed: three stops at once, whatever their outcome. */
    method Part(sent: seq<bool>)
      requires Valid() && |sent| == STOP_REPEAT_COUNT
      modifies this
      ensures Valid() && pendingStops == old(pendingStops)
      ensures actions == old(actions) + PartingStops(sent)
    {
      ghost var authority, before := joypad.registry.enabled, actions;
      for attempt := 0 to STOP_REPEAT_COUNT
        invariant InStep(actions, pendingStops, authority) && pendingStops == old(pendingStops)
        invariant attempt == 0 ==> actions == before
        invariant attempt == 1 ==> actions == before + [Parting(sent[0])]
        invariant attempt == 2 ==> actions == before + [Parting(sent[0]), Parting(sent[1])]
        invariant attempt == 3 ==> actions == before + [Parting(sent[0]), Parting(sent[1]), Parting(sent[2])]
      {
        Followed(actions, Parting(sent[attempt]), pendingStops, authority);
        actions := actions + [Parting(sent[attempt])];
      }
    }

    method Serve(turn: Turn) returns (ended: bool)
      requires Valid() && WellFormedTurn(turn)
      modifies this, joypad.registry
      ensures Valid() && Follows(joypad.backend, turn, old(Now()), Now())
      ensures ended <==> Due(joypad.backend, turn, old(Now())) && !turn.delivered
      ensures actions == old(actions) + Doing(joypad.backend, turn, old(Now()), Now(), old(pendingStops))
      ensures pendingStops == OwedAfter(turn, old(Now()).held, Now().held, old(pendingStops))
    {
      if turn.Tick? {
        ended := OnTick(turn);
      } else {
        ended := OnCommand(turn);
      }
    }

    /** The loop until an observation is not delivered or the turns are over.
        `states` are the inventories between the turns it serves. */
    method Loop(turns: seq<Turn>) returns (ended: bool, ghost states: seq<Snapshot>)
      requires Valid()
      requires forall i | 0 <= i < |turns| :: WellFormedTurn(turns[i])
      modifies this, joypad.registry
      ensures Valid()
      ensures Recorded(joypad.backend, turns, states, old(actions), old(pendingStops), actions, pendingStops)
      ensures states[0] == old(Now()) && states[|states| - 1] == Now()
      ensures ended ==> Interrupted(joypad.backend, turns, states)
      ensures !ended ==> |states| == |turns| + 1 && Told(joypad.backend, turns, states, |turns|)
    {
      ghost var start, owed := actions, pendingStops;
      states, ended := [Now()], false;
      for i := 0 to |turns|
        invariant Valid()
        invariant |states| == i + 1 && states[i] == Now() && states[0] == old(Now())
        invariant Recorded(joypad.backend, turns, states, start, owed, actions, pendingStops)
        invariant Told(joypad.backend, turns, states, i)
      {
        ghost var before, pending := actions, pendingStops;
        ended := Serve(turns[i]);
        RecordGrows(joypad.backend, turns, states, start, owed, before, pending, Now(), actions, pendingStops);
        states := states + [Now()];
        if ended {
          return;
        }
      }
    }

    /** The turns it serves, then, if the command port closed, the parting stops. */
    method Run(turns: seq<Turn>, closed: bool, parting: seq<bool>)
      returns (ending: Ending, ghost states: seq<Snapshot>)
      requires Valid() && |parting| == STOP_REPEAT_COUNT
      requires forall i | 0 <= i < |turns| :: WellFormedTurn(turns[i])
      modifies this, joypad.registry
      ensures Valid()
      ensures Trail(joypad.backend, turns, states) && states[0] == old(Now()) && states[|states| - 1] == Now()
      // It ends with the parting stops exactly when the port closes and every
      // observation that was due until then was delivered.
      ensures ending.Undelivered? <==> !Told(joypad.backend, turns, states, |states| - 1)
      ensures !ending.Undelivered? ==> |states| == |turns| + 1
      ensures ending.PortClosed? <==> closed && !ending.Undelivered?
      // The other exit is the first undelivered observation.
      ensures ending.Undelivered? ==> Interrupted(joypad.backend, turns, states)
      // Everything it did, in order; at the other exit nothing follows, and what
      // is owed then stays owed.
      ensures actions == old(actions) + Story(joypad.backend, turns, states, old(pendingStops))
        + if ending.PortClosed? then PartingStops(parting) else []
      ensures pendingStops == Owing(turns, states, old(pendingStops))
    {
      var ended;
      ended, states := Loop(turns);
      if ended {
        ending := Undelivered;
      } else if closed {
        Part(parting);
        ending := PortClosed;
      } else {
        ending := Serving;
      }
    }
  }

  // ------------------------------------------------------------ inventories

  /** The turn has to publish an observation: every request, and a tick that finds
      the inventory changed or the obeyed pad gone. */
  ghost predicate Due(backend: bool, turn: Turn, at: Snapshot) {
    match turn
    case Tick(events, stillConnected, _, _, _) => backend && (Stirs(events, at.entries) || (at.held && !stillConnected))
    case Command(_, _, _) => true
  }

  /** The events were applied: what they said last of a handle holds, and only
      announced handles are new. */
  ghost predicate Heeded(backend: bool, events: seq<PadEvent>, at: Entries, next: Entries) {
    && (backend ==> forall h | Gone(events, h) :: !Held(next, h))
    && forall h | Held(next, h) :: Held(at, h) || Announced(events, h)
  }

  /** What a tick's events leave of the selection. */
  ghost predicate EventsSteer(events: seq<PadEvent>, at: Snapshot, next: Snapshot) {
    if Ready(at) then
      HandleOf(at).Some? && if Taken(events, HandleOf(at).value) then !next.held else Stays(at, next)
    else
      forall i: nat | FirstOffer(events, i) ::
        Ready(next) && HandleOf(next) == Some(events[i].pad.handle) && !next.held
  }

  /** And what the whole tick does: authority falls exactly when the obeyed pad
      left, lost its mapping or was found gone, and its selection stays otherwise. */
  ghost predicate TickSteered(events: seq<PadEvent>, stillConnected: bool, at: Snapshot, next: Snapshot) {
    if at.held && !stillConnected then !next.held else EventsSteer(events, at, next)
  }

  lemma PollSteers(events: seq<PadEvent>, trail: seq<Snapshot>)
    requires Handles(events, trail) && (trail[0].held ==> Ready(trail[0]))
    requires Ready(trail[0]) ==> HandleOf(trail[0]).Some?
    ensures EventsSteer(events, trail[0], trail[|events|])
  {
    assert events[..|events|] == events;
    if Ready(trail[0]) {
      ASelectionIsLostExactlyWithItsPad(events, trail, |events|, HandleOf(trail[0]).value);
    } else {
      forall i: nat | FirstOffer(events, i)
        ensures Ready(trail[|events|]) && HandleOf(trail[|events|]) == Some(events[i].pad.handle)
          && !trail[|events|].held
      {
        TheFirstOfferIsSelected(events, trail, |events|, i);
      }
    }
  }

  /** A tick only ever takes authority away, and always with its pad; without
      anything to publish it leaves the inventory. A request does what it asks for. */
  ghost predicate Follows(backend: bool, turn: Turn, at: Snapshot, next: Snapshot) {
    && (next.held ==> Ready(next))
    && match turn
       case Tick(events, stillConnected, _, _, _) =>
         && (next.held ==> at.held && (backend ==> stillConnected))
         && (!Due(backend, turn, at) ==> next == at)
         && Heeded(backend, events, at.entries, next.entries)
         && (backend ==> TickSteered(events, stillConnected, at, next))
       case Command(request, _, _) => Answers(backend, request, at, next)
  }

  ghost predicate Answers(backend: bool, request: Request, at: Snapshot, next: Snapshot) {
    match request
    case SelectPad(id) =>
      && next.entries == at.entries
      && next.selected ==
           (if backend && Usable(at.entries, id) then Some(id)
            else if backend && |id| <= MAX_SELECT_ID_BYTES && at.selected == Some(id) then None
            else at.selected)
      && (next.held <==> at.held && next.selected == at.selected)
    case SetAuthority(on) => next == at.(held := on && Ready(at))
    case RescanPads(pads) =>
      && (next.held ==> at.held)
      && (!backend ==> next == at)
      && (backend ==> forall h | Held(next.entries, h) :: Listed(pads, h))
      && (backend && FitsIn(pads, at.entries, at.selected) ==> Inventory(next.entries, pads))
      && (backend ==> Relisted(at, next, pads))
      && (next.selected.Some? && next.selected != at.selected ==> HandleOf(next) == FirstMapped(pads))
  }

  /** In a tick authority falls exactly when the obeyed pad left, was announced
      without its mapping, or is found gone. */
  lemma AuthorityFallsExactly(turn: Turn, at: Snapshot, next: Snapshot)
    requires turn.Tick? && Follows(true, turn, at, next) && at.held && Ready(at)
    ensures HandleOf(at).Some? || !turn.stillConnected
    ensures next.held <==> turn.stillConnected && !Taken(turn.events, HandleOf(at).value)
  {
  }

  /** Each turn follows from the state before it. */
  ghost predicate Trail(backend: bool, turns: seq<Turn>, states: seq<Snapshot>) {
    && 0 < |states| <= |turns| + 1
    && forall i | 0 <= i < |states| - 1 :: Follows(backend, turns[i], states[i], states[i + 1])
  }

  /** Of the first `n` turns every due observation was delivered. */
  ghost predicate Told(backend: bool, turns: seq<Turn>, states: seq<Snapshot>, n: nat)
    requires n < |states| && n <= |turns|
  {
    forall i | 0 <= i < n :: Due(backend, turns[i], states[i]) ==> turns[i].delivered
  }

  /** The last turn is the first whose due observation was not delivered. */
  ghost predicate Interrupted(backend: bool, turns: seq<Turn>, states: seq<Snapshot>) {
    && 1 < |states| <= |turns| + 1 && Told(backend, turns, states, |states| - 2)
    && Due(backend, turns[|states| - 2], states[|states| - 2]) && !turns[|states| - 2].delivered
  }

  lemma TrailGrows(backend: bool, turns: seq<Turn>, states: seq<Snapshot>, next: Snapshot)
    requires Trail(backend, turns, states) && |states| <= |turns|
    requires Follows(backend, turns[|states| - 1], states[|states| - 1], next)
    requires Told(backend, turns, states, |states| - 1)
    ensures Trail(backend, turns, states + [next])
    ensures Told(backend, turns, states + [next], |states| - 1)
    ensures Told(backend, turns, states + [next], |states|) <==>
      (Due(backend, turns[|states| - 1], states[|states| - 1]) ==> turns[|states| - 1].delivered)
  {
  }

  lemma Appended(start: seq<Action>, first: seq<Action>, second: seq<Action>)
    ensures start + first + second == start + (first + second)
  {
  }

  function PartingStops(sent: seq<bool>): seq<Action>
    requires |sent| == STOP_REPEAT_COUNT
  {
    [Parting(sent[0]), Parting(sent[1]), Parting(sent[2])]
  }

  // ------------------------------------------------------------ whole sessions

  /** The pad command of a tick that leaves this inventory. */
  function Obeyed(backend: bool, stillConnected: bool, at: Snapshot): seq<Action> {
    if backend && at.held && stillConnected && Ready(at) && at.entries[at.selected.value].handle.Some?
    then [Drive(at.entries[at.selected.value].handle.value)] else []
  }

  /** All that a turn does: an undelivered observation comes before the pad. */
  ghost function Doing(backend: bool, turn: Turn, at: Snapshot, next: Snapshot, owed: nat): seq<Action> {
    TurnActions(turn, at.held, next.held, owed)
      + if turn.Tick? && (Due(backend, turn, at) ==> turn.delivered) then Obeyed(backend, turn.stillConnected, next)
        else []
  }

  /** The stops owed after a session that began with `owed` of them. */
  function Owing(turns: seq<Turn>, states: seq<Snapshot>, owed: nat): nat
    requires 0 < |states| <= |turns| + 1
    decreases |states|
  {
    var n := |states| - 1;
    if n == 0 then owed
    else OwedAfter(turns[n - 1], states[n - 1].held, states[n].held, Owing(turns, states[..n], owed))
  }

  /** All that a session does, turn by turn. */
  ghost function Story(backend: bool, turns: seq<Turn>, states: seq<Snapshot>, owed: nat): seq<Action>
    requires 0 < |states| <= |turns| + 1
    decreases |states|
  {
    var n := |states| - 1;
    if n == 0 then []
    else
      Story(backend, turns, states[..n], owed)
        + Doing(backend, turns[n - 1], states[n - 1], states[n], Owing(turns, states[..n], owed))
  }

  lemma {:induction false} StoryGrows(backend: bool, turns: seq<Turn>, states: seq<Snapshot>, owed: nat, next: Snapshot)
    requires 0 < |states| <= |turns|
    ensures var (n, before) := (|states|, Owing(turns, states, owed));
            && Owing(turns, states + [next], owed) == OwedAfter(turns[n - 1], states[n - 1].held, next.held, before)
            && Story(backend, turns, states + [next], owed) ==
                 Story(backend, turns, states, owed) + Doing(backend, turns[n - 1], states[n - 1], next, before)
  {
    var n, all := |states|, states + [next];
    assert all[..n] == states && all[n - 1] == states[n - 1] && all[n] == next;
    assert Owing(turns, all, owed) == OwedAfter(turns[n - 1], all[n - 1].held, all[n].held, Owing(turns, states, owed));
  }

  /** The feed did what its turns and the states between them say. */
  ghost predicate Recorded(backend: bool, turns: seq<Turn>, states: seq<Snapshot>, start: seq<Action>, owed: nat,
                           actions: seq<Action>, pending: nat)
  {
    && Trail(backend, turns, states)
    && actions == start + Story(backend, turns, states, owed) && pending == Owing(turns, states, owed)
  }

  lemma {:induction false} RecordGrows(
    backend: bool, turns: seq<Turn>, states: seq<Snapshot>, start: seq<Action>, owed: nat, before: seq<Action>,
    pending: nat, next: Snapshot, actions: seq<Action>, newPending: nat)
    requires Recorded(backend, turns, states, start, owed, before, pending) && |states| <= |turns|
    requires Told(backend, turns, states, |states| - 1)
    requires var (turn, at) := (turns[|states| - 1], states[|states| - 1]);
             && Follows(backend, turn, at, next)
             && actions == before + Doing(backend, turn, at, next, pending)
             && newPending == OwedAfter(turn, at.held, next.held, pending)
    ensures Recorded(backend, turns, states + [next], start, owed, actions, newPending)
    ensures if Due(backend, turns[|states| - 1], states[|states| - 1]) && !turns[|states| - 1].delivered
            then Interrupted(backend, turns, states + [next]) else Told(backend, turns, states + [next], |states|)
  {
    TrailGrows(backend, turns, states, next);
    StoryGrows(backend, turns, states, owed, next);
    Appended(start, Story(backend, turns, states, owed),
             Doing(backend, turns[|states| - 1], states[|states| - 1], next, pending));
  }

  /** A tick obeys the pad exactly when it ends with authority over a pad that is
      there, and nothing due was left undelivered; it obeys the selected one. */
  lemma TicksObeyExactly(backend: bool, turn: Turn, at: Snapshot, next: Snapshot, owed: nat, handle: nat)
    requires turn.Tick?
    ensures Drive(handle) in Doing(backend, turn, at, next, owed) <==>
      && backend && next.held && turn.stillConnected && Ready(next) && HandleOf(next) == Some(handle)
      && (Due(backend, turn, at) ==> turn.delivered)
  {
    var first := TurnActions(turn, at.held, next.held, owed);
    assert forall a | a in first :: a.Stop? || a.Queued?;
  }

  /** Ticks that can send and revoke nothing send one owed stop each until none is
      left. */
  lemma {:induction false} TheDebtIsPaid(backend: bool, turns: seq<Turn>, states: seq<Snapshot>, owed: nat)
    requires 0 < |states| <= |turns| + 1
    requires forall i | 0 <= i < |states| - 1 ::
      turns[i].Tick? && turns[i].first && states[i + 1].held == states[i].held
    ensures Owing(turns, states, owed) == if owed <= |states| - 1 then 0 else owed - (|states| - 1)
    ensures Sent(Story(backend, turns, states, owed)) == owed - Owing(turns, states, owed)
    decreases |states|
  {
    var n := |states| - 1;
    if n > 0 {
      var before := states[..n];
      TheDebtIsPaid(backend, turns, before, owed);
      assert states == before + [states[n]];
      OnePaid(backend, turns, before, owed, states[n]);
    }
  }

  lemma {:induction false} OnePaid(backend: bool, turns: seq<Turn>, states: seq<Snapshot>, owed: nat, next: Snapshot)
    requires 0 < |states| <= |turns|
    requires turns[|states| - 1].Tick? && turns[|states| - 1].first && next.held == states[|states| - 1].held
    ensures var (left, paid) := (Owing(turns, states, owed), if Owing(turns, states, owed) > 0 then 1 else 0);
            && Owing(turns, states + [next], owed) == left - paid
            && Sent(Story(backend, turns, states + [next], owed)) == Sent(Story(backend, turns, states, owed)) + paid
  {
    var n, left := |states|, Owing(turns, states, owed);
    StoryGrows(backend, turns, states, owed, next);
    QuietTickPays(backend, turns[n - 1], states[n - 1], next, left);
    SentAdds(Story(backend, turns, states, owed), Doing(backend, turns[n - 1], states[n - 1], next, left));
  }

  lemma {:induction false} QuietTickPays(backend: bool, turn: Turn, at: Snapshot, next: Snapshot, left: nat)
    requires turn.Tick? && turn.first && next.held == at.held
    ensures Sent(Doing(backend, turn, at, next, left)) == if left > 0 then 1 else 0
    ensures OwedAfter(turn, at.held, next.held, left) == if left > 0 then left - 1 else 0
  {
    var retry, did := Retry(left, true), Doing(backend, turn, at, next, left);
    var obeyed := did[|retry|..];
    assert did == retry + obeyed;
    SentAdds(retry, obeyed);
    assert left > 0 ==> retry[..0] == [];
    assert |obeyed| == 1 ==> obeyed[..0] == [];
  }

  lemma {:induction false} SentAdds(a: seq<Action>, b: seq<Action>)
    ensures Sent(a + b) == Sent(a) + Sent(b)
    decreases |b|
  {
    if b == [] {
      assert a + b == a;
    } else {
      assert (a + b)[..|a + b| - 1] == a + b[..|b| - 1];
      SentAdds(a, b[..|b| - 1]);
    }
  }

  /** No part of a session is a parting stop. */
  lemma {:induction false} StoriesDoNotPart(backend: bool, turns: seq<Turn>, states: seq<Snapshot>, owed: nat)
    requires 0 < |states| <= |turns| + 1
    ensures forall i | 0 <= i < |Story(backend, turns, states, owed)| ::
      !Story(backend, turns, states, owed)[i].Parting?
    decreases |states|
  {
    if |states| > 1 {
      StoriesDoNotPart(backend, turns, states[..|states| - 1], owed);
    }
  }

  /** After a revocation in its last turn a session owes two or three stops, and
      after any other turn at most the one it sent fewer than before. */
  lemma {:induction false} WhatTheExitOwes(turns: seq<Turn>, states: seq<Snapshot>, owed: nat)
    requires 1 < |states| <= |turns| + 1
    ensures var (n, before, after) := (|states| - 1, Owing(turns, states[..|states| - 1], owed),
                                       Owing(turns, states, owed));
            if states[n - 1].held && !states[n].held then STOP_REPEAT_COUNT - 1 <= after <= STOP_REPEAT_COUNT
            else before - 1 <= after <= before
  {
  }

  /** Open with one usable pad and grant authority over it. */
  method Enabled(pad: Gamepad) returns (feed: Feed)
    requires WellFormed(pad) && pad.mapped
    ensures fresh(feed) && fresh(feed.joypad) && fresh(feed.joypad.registry)
    ensures feed.Valid() && feed.actions == [Granted] && feed.pendingStops == 0
    ensures feed.joypad.backend && feed.joypad.registry.enabled
    ensures feed.joypad.registry.SelectedHandle() == Some(pad.handle)
  {
    var pads := new Pads(true, [pad]);
    feed := new Feed(pads);
    var _ := feed.OnCommand(Command(SetAuthority(true), true, true));
  }

  method ObeyedOnce(pad: Gamepad) returns (feed: Feed)
    requires WellFormed(pad) && pad.mapped
    ensures fresh(feed) && fresh(feed.joypad) && fresh(feed.joypad.registry)
    ensures feed.Valid() && feed.actions == [Granted, Drive(pad.handle)] && feed.pendingStops == 0
    ensures feed.Now().held && Ready(feed.Now())
  {
    feed := Enabled(pad);
    var _ := feed.OnTick(Tick([], true, true, true, true));
    assert feed.actions == [Granted, Drive(pad.handle)];
  }

  /** An exit after which the last pad command stands: authority is granted, a pad
      is obeyed, and the answer to the next request has no receiver any more. No
      stop is sent and none is owed. */
  method AnUndeliveredAnswerLeavesTheLastCommand(pad: Gamepad) returns (feed: Feed, ended: bool)
    requires WellFormed(pad) && pad.mapped
    ensures fresh(feed) && ended
    ensures feed.actions == [Granted, Drive(pad.handle)] && feed.pendingStops == 0 && feed.joypad.registry.enabled
  {
    feed := ObeyedOnce(pad);
    ended := feed.OnCommand(Command(SetAuthority(true), true, false));
  }

  // ------------------------------------------------------- what that guarantees

  lemma {:induction false} AuthorityNeedsAGrant(actions: seq<Action>, revoked: nat, now: nat)
    requires revoked < now <= |actions| && actions[revoked].Queued? && Authority(actions[..now])
    ensures exists k | revoked < k < now :: actions[k].Granted?
  {
    assert actions[..now][..now - 1] == actions[..now - 1];
    if !actions[now - 1].Granted? {
      AuthorityNeedsAGrant(actions, revoked, now - 1);
    }
  }

  lemma {:induction false} PrefixIsDisciplined(actions: seq<Action>, n: nat)
    requires Disciplined(actions) && n <= |actions|
    ensures Disciplined(actions[..n])
  {
    if n < |actions| {
      PrefixIsDisciplined(actions[..|actions| - 1], n);
      assert actions[..|actions| - 1][..n] == actions[..n];
    } else {
      assert actions[..n] == actions;
    }
  }

  /** Between a revocation and the next accepted enable no pad is obeyed. */
  lemma NoCommandWithoutAGrant(actions: seq<Action>, revoked: nat, driven: nat)
    requires Disciplined(actions)
    requires revoked < driven < |actions| && actions[revoked].Queued? && actions[driven].Drive?
    ensures exists k | revoked < k < driven :: actions[k].Granted?
  {
    PrefixIsDisciplined(actions, driven + 1);
    assert actions[..driven + 1][..driven] == actions[..driven];
    AuthorityNeedsAGrant(actions, revoked, driven);
  }

  ghost function Sent(actions: seq<Action>): nat {
    if actions == [] then 0
    else Sent(actions[..|actions| - 1]) + if actions[|actions| - 1] == Stop(true) then 1 else 0
  }

  /** Since the last queueing the budget is three less the stops published, for
      any pattern of failures: it is spent after exactly three. */
  lemma {:induction false} BudgetIsThreeStops(before: seq<Action>, since: seq<Action>)
    requires Queued !in since
    ensures Owed(before + [Queued] + since) == STOP_REPEAT_COUNT - Sent(since)
    ensures Owed(before + [Queued] + since) == 0 <==> Sent(since) == STOP_REPEAT_COUNT
    decreases |since|
  {
    var all := before + [Queued] + since;
    if since == [] {
      assert all == before + [Queued];
      assert all[..|all| - 1] == before;
    } else {
      var rest := since[..|since| - 1];
      assert all[..|all| - 1] == before + [Queued] + rest;
      BudgetIsThreeStops(before, rest);
    }
  }
}

/** The backend-facing half of manual input (cli/src/joypad/mod.rs). What the
    gamepad backend reports is an argument of each operation. */
module Joypad {
  import opened Wrappers
  import opened PadRegistry

  const STOP_REPEAT_COUNT: nat := 3

  /** One pad as the backend lists it now; `mapped`: none of its four shoulder
      buttons lacks a mapping. */
  datatype Gamepad = Gamepad(handle: nat, name: Bytes, uuid: Bytes, mapped: bool)

  datatype PadEvent = PadConnected(pad: Gamepad) | PadDisconnected(handle: nat) | PadMoved(handle: nat)

  ghost predicate WellFormed(pad: Gamepad) {
    |pad.uuid| == 16
  }

  /** What the registry holds between two operations. */
  datatype Snapshot = Snapshot(entries: Entries, selected: Option<Bytes>, held: bool)

  predicate Ready(at: Snapshot) {
    && at.selected.Some? && at.selected.value in at.entries
    && at.entries[at.selected.value].connected && at.entries[at.selected.value].mapped
  }

  function HandleOf(at: Snapshot): Option<nat> {
    if at.selected.Some? && at.selected.value in at.entries then at.entries[at.selected.value].handle else None
  }

  class Pads {
    const backend: bool
    const registry: Registry

    ghost function Now(): Snapshot
      reads registry
    {
      Snapshot(registry.entries, registry.selected, registry.enabled)
    }

    ghost predicate Valid()
      reads this, registry
    {
      registry.Safe()
    }

    constructor (backend: bool, pads: seq<Gamepad>)
      requires forall i | 0 <= i < |pads| :: WellFormed(pads[i])
      ensures Valid() && fresh(registry) && this.backend == backend
      ensures !registry.enabled
      ensures !backend ==> registry.entries == map[] && registry.selected.None?
      ensures backend ==> forall h | Held(registry.entries, h) :: Listed(pads, h)
      ensures registry.selected.Some? ==> registry.SelectedHandle() == FirstMapped(pads)
      ensures backend && FitsIn(pads, map[], None) ==> Inventory(registry.entries, pads)
      ensures backend && FitsIn(pads, map[], None) && FirstMapped(pads).Some? ==> registry.SelectionReady()
    {
      this.backend := backend;
      this.registry := new Registry(if backend then None else Some(BackendUnavailable));
      new;
      var _ := Rescan(pads);
    }

    /** Drain the pending events. */
    method Poll(events: seq<PadEvent>) returns (outcome: RegistryChange, ghost trail: seq<Snapshot>)
      requires Valid()
      requires forall i | 0 <= i < |events| :: events[i].PadConnected? ==> WellFormed(events[i].pad)
      modifies registry
      ensures Valid() && (registry.enabled ==> old(registry.enabled))
      ensures outcome.zeroRequired <==> old(registry.enabled) && !registry.enabled
      ensures !outcome.changed ==>
        registry.entries == old(registry.entries) && registry.selected == old(registry.selected)
      ensures outcome.zeroRequired ==> outcome.changed
      ensures !outcome.changed ==> registry.enabled == old(registry.enabled)
      ensures outcome.changed <==> backend && Stirs(events, old(registry.entries))
      ensures !backend ==> outcome == RegistryChange(false, false)
      ensures backend ==> Handles(events, trail) && trail[0] == old(Now()) && trail[|events|] == Now()
      // What the last event of a handle said is what the registry says.
      ensures backend ==> forall h | Gone(events, h) :: !Held(registry.entries, h)
      ensures forall h | Held(registry.entries, h) :: Held(old(registry.entries), h) || Announced(events, h)
    {
      outcome, trail := RegistryChange(false, false), [Now()];
      if !backend {
        return;
      }
      ghost var start := Now();
      for i := 0 to |events|
        invariant Valid() && Polled(events, i, start, trail, outcome) && trail[i] == Now()
      {
        var applied := Handle(events[i]);
        PollGrows(events, i, start, trail, outcome, Now(), applied);
        trail := trail + [Now()];
        outcome := RegistryChange(outcome.changed || applied.changed, outcome.zeroRequired || applied.zeroRequired);
      }
      assert events[..|events|] == events;
    }

    method Handle(event: PadEvent) returns (applied: RegistryChange)
      requires Valid()
      requires event.PadConnected? ==> WellFormed(event.pad)
      modifies registry
      ensures Valid() && Applied(event, old(Now()), Now(), applied)
    {
      match event
      case PadConnected(pad) =>
        applied := Arrive(pad);
      case PadDisconnected(handle) =>
        applied := registry.Disconnected(handle);
      case PadMoved(_) =>
        applied := RegistryChange(false, false);
    }

    /** A pad reported connected: observed, and selected if there is room for it. */
    method Arrive(pad: Gamepad) returns (applied: RegistryChange)
      requires Valid() && WellFormed(pad)
      modifies registry
      ensures Valid() && Held(registry.entries, pad.handle)
      ensures applied == RegistryChange(true, old(registry.enabled) && !registry.enabled)
      ensures forall h | Held(registry.entries, h) :: Held(old(registry.entries), h) || pad.handle == h
      ensures Handled(PadConnected(pad), old(Now()), Now())
    {
      ghost var at, order := Now(), registry.deviceOrder;
      var id := ObservePad(pad);
      ArrivalIsNoted(order, at.entries, registry.deviceOrder, registry.entries, id, pad, registry.selected);
      ObservationHolds(at.entries, registry.entries, id, pad.handle);
      ObservationSelects(at, registry.entries, id, pad);
      applied := registry.Connected(id);
    }

    method ObservePad(pad: Gamepad) returns (id: Bytes)
      requires registry.Valid() && WellFormed(pad)
      modifies registry
      ensures registry.Valid() && registry.enabled == old(registry.enabled)
      ensures registry.selected == old(registry.selected)
      ensures OnlyOne(old(registry.entries), registry.entries, id, pad.handle)
      ensures registry.entries[id].name == pad.name
      ensures Observed(old(registry.deviceOrder), old(registry.entries), registry.deviceOrder, registry.entries,
                       id, pad, registry.selected)
    {
      ghost var before := registry.entries;
      id := registry.Observe(pad.handle, pad.name, pad.uuid, pad.mapped);
      assert Held(before, pad.handle) ==> id in before && before[id].handle == Some(pad.handle);
      assert id !in before ==> Admissible(before, id, registry.entries[id]);
    }

    method ListOne(pads: seq<Gamepad>, i: nat, ghost seen: set<Bytes>, ghost recent: seq<Bytes>,
                   ghost start: Snapshot, ghost fits: bool)
      returns (id: Bytes)
      requires registry.Valid() && i < |pads| && WellFormed(pads[i]) && registry.selected == start.selected
      requires Listing(registry.deviceOrder, registry.entries, seen, recent, pads, i, start, fits)
      modifies registry
      ensures registry.Valid() && registry.enabled == old(registry.enabled) && registry.selected == start.selected
      ensures Listing(registry.deviceOrder, registry.entries, seen + {id}, recent + [id], pads, i + 1, start, fits)
    {
      ghost var order, before := registry.deviceOrder, registry.entries;
      id := ObservePad(pads[i]);
      ListingGrows(order, before, registry.deviceOrder, registry.entries, seen, recent, pads, i, id, start, fits);
    }

    /** Observe every listed pad in turn. */
    method ListAll(pads: seq<Gamepad>, ghost start: Snapshot, ghost fits: bool)
      returns (seen: set<Bytes>, ghost recent: seq<Bytes>)
      requires registry.Valid() && registry.selected == start.selected
      requires forall i | 0 <= i < |pads| :: WellFormed(pads[i])
      requires Listing(registry.deviceOrder, registry.entries, {}, [], pads, 0, start, fits)
      modifies registry
      ensures registry.Valid() && registry.enabled == old(registry.enabled) && registry.selected == start.selected
      ensures Listing(registry.deviceOrder, registry.entries, seen, recent, pads, |pads|, start, fits)
    {
      seen, recent := {}, [];
      for i := 0 to |pads|
        invariant registry.Valid() && registry.enabled == old(registry.enabled) && registry.selected == start.selected
        invariant Listing(registry.deviceOrder, registry.entries, seen, recent, pads, i, start, fits)
      {
        var id := ListOne(pads, i, seen, recent, start, fits);
        seen, recent := seen + {id}, recent + [id];
      }
    }

    /** Observe every listed pad; the invariant may be broken in between. */
    method Enumerate(pads: seq<Gamepad>) returns (seen: set<Bytes>)
      requires registry.Valid()
      requires forall i | 0 <= i < |pads| :: WellFormed(pads[i])
      modifies registry
      ensures registry.Valid() && registry.enabled == old(registry.enabled)
      ensures registry.selected == old(registry.selected)
      ensures HandlesOf(registry.entries, seen, pads)
      ensures pads != [] ==> SeenHolds(registry.entries, seen, pads[|pads| - 1])
      ensures FitsIn(pads, old(registry.entries), registry.selected) ==>
        forall i | 0 <= i < |pads| :: SeenHolds(registry.entries, seen, pads[i])
      ensures Watched(old(Now()), registry.entries, seen, pads)
    {
      ghost var start, fits := Now(), FitsIn(pads, registry.entries, registry.selected);
      ListingBegins(registry.deviceOrder, pads, start);
      ghost var recent;
      seen, recent := ListAll(pads, start, fits);
      ListingShows(registry.deviceOrder, registry.entries, seen, recent, pads, start, fits);
    }

    /** Enumerate the connected pads again. */
    method Rescan(pads: seq<Gamepad>) returns (zero: bool)
      requires Valid()
      requires forall i | 0 <= i < |pads| :: WellFormed(pads[i])
      modifies registry
      ensures Valid() && (registry.enabled ==> old(registry.enabled))
      ensures zero <==> old(registry.enabled) && !registry.enabled
      ensures !backend ==> registry.entries == old(registry.entries) && registry.selected == old(registry.selected)
      ensures !backend ==> registry.enabled == old(registry.enabled)
      // No unlisted pad stays connected; the last listed one always does, and
      // all of them do while they fit beside the selection.
      ensures backend ==> forall h | Held(registry.entries, h) :: Listed(pads, h)
      ensures backend && pads != [] ==> Held(registry.entries, pads[|pads| - 1].handle)
      ensures backend && FitsIn(pads, old(registry.entries), old(registry.selected)) ==>
        Inventory(registry.entries, pads)
      // A ready selection stays, with authority over it, exactly while its pad is
      // listed with its mapping.
      ensures backend ==> Relisted(old(Now()), Now(), pads)
      // A new selection is the first usable pad of the list.
      ensures registry.selected.Some? && registry.selected != old(registry.selected) ==>
        registry.SelectedHandle() == FirstMapped(pads)
      ensures backend && FitsIn(pads, old(registry.entries), old(registry.selected)) && FirstMapped(pads).Some? ==>
        registry.SelectionReady()
    {
      if !backend {
        return false;
      }
      ghost var start := Now();
      var seen := Enumerate(pads);
      zero := Reconcile(pads, seen, start);
    }

    /** Free the pads that were not seen, then see to the selection. */
    method Reconcile(pads: seq<Gamepad>, seen: set<Bytes>, ghost start: Snapshot) returns (zero: bool)
      requires registry.Valid() && HandlesOf(registry.entries, seen, pads)
      requires registry.selected == start.selected && registry.enabled == start.held
      requires Watched(start, registry.entries, seen, pads)
      modifies registry
      ensures Valid() && (registry.enabled ==> start.held)
      ensures zero <==> start.held && !registry.enabled
      ensures forall h | Held(registry.entries, h) :: Listed(pads, h)
      ensures forall i | 0 <= i < |pads| && SeenHolds(old(registry.entries), seen, pads[i]) ::
        Shows(registry.entries, pads[i])
      ensures registry.selected.Some? && registry.selected != start.selected ==>
        registry.SelectedHandle() == FirstMapped(pads)
      ensures Inventory(registry.entries, pads) && FirstMapped(pads).Some? ==> registry.SelectionReady()
      ensures Relisted(start, Now(), pads)
    {
      UnseenAreFreed(registry.entries, seen, pads);
      WatchedStays(start, registry.entries, seen, pads);
      var missing := registry.RetainSeen(seen);
      var fallback := FirstMapped(pads);
      FallbackIsUsable(registry.entries, pads);
      var reconciled := registry.ReconcileSelection(fallback);
      zero := missing || reconciled;
    }

    method Select(id: Bytes) returns (zero: bool)
      requires Valid()
      modifies registry
      ensures Valid() && (registry.enabled ==> old(registry.enabled))
      ensures zero <==> old(registry.enabled) && !registry.enabled
      ensures registry.selected ==
        if backend && Usable(registry.entries, id) then Some(id)
        else if backend && |id| <= MAX_SELECT_ID_BYTES && old(registry.selected) == Some(id) then None
        else old(registry.selected)
      ensures registry.enabled <==> old(registry.enabled) && registry.selected == old(registry.selected)
      ensures registry.entries == old(registry.entries)
    {
      if !backend {
        return false;
      }
      zero := registry.Select(id);
    }

    method SetEnabled(on: bool) returns (zero: bool)
      requires Valid()
      modifies registry
      ensures Valid()
      ensures registry.enabled <==> on && registry.SelectionReady()
      ensures registry.entries == old(registry.entries) && registry.selected == old(registry.selected)
      ensures zero <==> old(registry.enabled) && !registry.enabled
    {
      zero := registry.SetEnabled(on);
    }

    /** The pad whose command is due, or none; a selection the backend no longer
        reports connected is dropped here. */
    method Command(stillConnected: bool) returns (handle: Option<nat>, change: RegistryChange)
      requires Valid()
      modifies registry
      ensures Valid() && (registry.enabled ==> old(registry.enabled))
      ensures change.zeroRequired <==> old(registry.enabled) && !registry.enabled
      ensures handle.Some? <==> backend && old(registry.enabled) && stillConnected
      ensures handle.Some? ==>
        registry.enabled && registry.SelectionReady() && handle == registry.SelectedHandle()
      ensures change.changed <==> backend && old(registry.enabled) && !stillConnected
      ensures change.zeroRequired ==> change.changed
      ensures !change.changed ==>
        registry.entries == old(registry.entries) && registry.selected == old(registry.selected)
      ensures forall h | Held(registry.entries, h) :: Held(old(registry.entries), h)
      // A selection found disconnected is dropped with its handle.
      ensures backend && old(registry.enabled) && !stillConnected ==>
        registry.selected.None? && !registry.enabled && change == RegistryChange(true, true)
    {
      if !registry.enabled {
        return None, RegistryChange(false, false);
      }
      var selected := registry.SelectedHandle();
      if !backend || selected.None? {
        return None, RegistryChange(false, false);
      }
      if !stillConnected {
        change := registry.Disconnect(registry.selected.value);
        return None, change;
      }
      return selected, RegistryChange(false, false);
    }
  }

  function FirstMapped(pads: seq<Gamepad>): Option<nat> {
    if pads == [] then None else if pads[0].mapped then Some(pads[0].handle) else FirstMapped(pads[1..])
  }

  lemma {:induction false} FirstMappedIsFirst(pads: seq<Gamepad>, i: nat)
    requires i < |pads| && pads[i].mapped && forall j | 0 <= j < i :: !pads[j].mapped
    ensures FirstMapped(pads) == Some(pads[i].handle)
  {
    if i > 0 {
      assert !pads[0].mapped && forall j | 0 <= j < i - 1 :: pads[1..][j] == pads[j + 1];
      FirstMappedIsFirst(pads[1..], i - 1);
    }
  }

  predicate Usable(entries: Entries, id: Bytes) {
    |id| <= MAX_SELECT_ID_BYTES && id in entries && entries[id].connected && entries[id].mapped
  }

  // ------------------------------------------------------ the selection, kept

  /** This event takes the pad of this handle away from its user. */
  predicate Takes(event: PadEvent, handle: nat) {
    match event
    case PadConnected(pad) => pad.handle == handle && !pad.mapped
    case PadDisconnected(gone) => gone == handle
    case PadMoved(_) => false
  }

  /** The ready selection, its pad and authority over it are what they were. */
  ghost predicate Stays(at: Snapshot, next: Snapshot) {
    Ready(next) && next.selected == at.selected && next.held == at.held && HandleOf(next) == HandleOf(at)
  }

  /** What one event does to the selection: a ready one stays unless the event takes
      its pad; without one a usable pad that arrives is selected, and authority is off. */
  ghost predicate Steered(event: PadEvent, at: Snapshot, next: Snapshot) {
    if Ready(at) && HandleOf(at).Some? && !Takes(event, HandleOf(at).value) then Stays(at, next)
    else
      && !next.held
      && if event.PadConnected? && event.pad.mapped then Ready(next) && HandleOf(next) == Some(event.pad.handle)
         else !Ready(next)
  }

  /** What it does to the inventory: an arrival is noted under one id and, below
      the limit, costs no other pad its place; a departure frees its handle only. */
  ghost predicate Noted(event: PadEvent, at: Entries, next: Entries) {
    match event
    case PadConnected(pad) =>
      && (exists id :: OnlyOne(at, next, id, pad.handle) && next[id].mapped == pad.mapped && next[id].name == pad.name)
      && (|at| < MAX_DEVICE_REGISTRY ==> at.Keys <= next.Keys)
    case PadDisconnected(handle) =>
      && !Held(next, handle) && next.Keys == at.Keys
      && forall k | k in next && at[k].handle != Some(handle) :: next[k] == at[k]
    case PadMoved(_) => next == at
  }

  ghost predicate Handled(event: PadEvent, at: Snapshot, next: Snapshot) {
    Noted(event, at.entries, next.entries) && Steered(event, at, next)
  }

  lemma ArrivalIsNoted(order: seq<Bytes>, before: Entries, newOrder: seq<Bytes>, after: Entries,
                       id: Bytes, pad: Gamepad, selected: Option<Bytes>)
    requires OnlyOne(before, after, id, pad.handle) && after[id].name == pad.name
    requires Observed(order, before, newOrder, after, id, pad, selected)
    ensures Noted(PadConnected(pad), before, after)
  {
    if id !in before {
      AdditionLists(order, before, id, after[id]);
    }
  }

  lemma ObservationSelects(at: Snapshot, after: Entries, id: Bytes, pad: Gamepad)
    requires HandlesAreExact(at.entries) && OnlyOne(at.entries, after, id, pad.handle)
    requires after[id].mapped == pad.mapped && after[id].connected
    requires id in at.entries ==> at.entries[id].handle in {None, Some(pad.handle)}
    requires Held(at.entries, pad.handle) ==> id in at.entries && at.entries[id].handle == Some(pad.handle)
    requires at.selected.Some? ==> at.selected.value in at.entries && at.selected.value in after
    ensures var kept := at.(entries := after);
            if Ready(at) then
              && HandleOf(at).Some?
              && if Takes(PadConnected(pad), HandleOf(at).value) then !Ready(kept) else Stays(at, kept)
            else Ready(kept) ==> pad.mapped && HandleOf(kept) == Some(pad.handle)
  {
    if at.selected.Some? {
      var s := at.selected.value;
      assert at.entries[s].handle == Some(pad.handle) ==> Held(at.entries, pad.handle);
    }
  }

  /** One event's report: whether it changed anything, and whether authority fell. */
  ghost predicate Applied(event: PadEvent, at: Snapshot, next: Snapshot, applied: RegistryChange) {
    && Handled(event, at, next)
    && (next.held ==> at.held)
    && (applied.changed <==> Stir(event, at.entries))
    && (applied.zeroRequired <==> at.held && !next.held)
    && (applied.zeroRequired ==> applied.changed)
    && (!applied.changed ==> next == at)
    && (event.PadConnected? ==> Held(next.entries, event.pad.handle))
    && (event.PadDisconnected? ==> !Held(next.entries, event.handle))
    && forall h | Held(next.entries, h) :: Held(at.entries, h) || (event.PadConnected? && event.pad.handle == h)
  }

  /** The same for the first `n` events. */
  ghost predicate Polled(events: seq<PadEvent>, n: nat, start: Snapshot, trail: seq<Snapshot>, outcome: RegistryChange)
    requires n <= |events|
  {
    && Handles(events[..n], trail) && trail[0] == start
    && var now := trail[n];
       && (now.held ==> start.held)
       && (outcome.changed <==> Stirs(events[..n], start.entries))
       && (outcome.zeroRequired <==> start.held && !now.held)
       && (outcome.zeroRequired ==> outcome.changed)
       && (!outcome.changed ==> now == start)
       && (forall h | Gone(events[..n], h) :: !Held(now.entries, h))
       && forall h | Held(now.entries, h) :: Held(start.entries, h) || Announced(events[..n], h)
  }

  lemma {:induction false} PollGrows(
    events: seq<PadEvent>, i: nat, start: Snapshot, trail: seq<Snapshot>, outcome: RegistryChange,
    next: Snapshot, applied: RegistryChange)
    requires i < |events| && Polled(events, i, start, trail, outcome) && Applied(events[i], trail[i], next, applied)
    ensures Polled(events, i + 1, start, trail + [next],
      RegistryChange(outcome.changed || applied.changed, outcome.zeroRequired || applied.zeroRequired))
  {
    EventsGrow(events, i);
    StirsGrow(events, i, start.entries);
    HandlesGrow(events, i, trail, next);
    assert Stir(events[i], trail[i].entries) ==> outcome.changed || Stir(events[i], start.entries);
  }

  /** The states between the events of a poll. */
  ghost predicate Handles(events: seq<PadEvent>, trail: seq<Snapshot>) {
    |trail| == |events| + 1 && forall i | 0 <= i < |events| :: Handled(events[i], trail[i], trail[i + 1])
  }

  lemma {:induction false} HandlesGrow(events: seq<PadEvent>, i: nat, trail: seq<Snapshot>, next: Snapshot)
    requires i < |events| && Handles(events[..i], trail) && Handled(events[i], trail[i], next)
    ensures Handles(events[..i + 1], trail + [next])
  {
    var some, all := events[..i + 1], trail + [next];
    forall j | 0 <= j < i + 1
      ensures Handled(some[j], all[j], all[j + 1])
    {
      if j < i {
        assert events[..i][j] == some[j];
        assert Handled(events[..i][j], trail[j], trail[j + 1]);
      }
    }
  }

  ghost predicate Taken(events: seq<PadEvent>, handle: nat) {
    exists i | 0 <= i < |events| :: Takes(events[i], handle)
  }

  /** A poll leaves a ready selection, its pad and authority over it alone exactly
      when no event takes that pad: neither another pad's arrival nor its leaving
      costs the user anything. */
  lemma {:induction false} ASelectionIsLostExactlyWithItsPad(
    events: seq<PadEvent>, trail: seq<Snapshot>, n: nat, handle: nat)
    requires Handles(events, trail) && n <= |events|
    requires Ready(trail[0]) && HandleOf(trail[0]) == Some(handle)
    ensures if Taken(events[..n], handle) then !trail[n].held else Stays(trail[0], trail[n])
  {
    if n > 0 {
      ASelectionIsLostExactlyWithItsPad(events, trail, n - 1, handle);
      assert Steered(events[n - 1], trail[n - 1], trail[n]);
      TakenGrows(events, n - 1, handle);
    }
  }

  lemma TakenGrows(events: seq<PadEvent>, i: nat, handle: nat)
    requires i < |events|
    ensures Taken(events[..i + 1], handle) <==> Taken(events[..i], handle) || Takes(events[i], handle)
  {
    var more := events[..i + 1];
    assert more[i] == events[i];
    assert forall k | 0 <= k < i :: more[k] == events[..i][k];
  }

  predicate Offers(event: PadEvent) {
    event.PadConnected? && event.pad.mapped
  }

  /** Event `i` is the first arrival of a usable pad, and nothing takes it again. */
  ghost predicate FirstOffer(events: seq<PadEvent>, i: nat) {
    && i < |events| && Offers(events[i])
    && (forall j | 0 <= j < i :: !Offers(events[j]))
    && forall j | i < j < |events| :: !Takes(events[j], events[i].pad.handle)
  }

  /** Without a ready selection the first usable pad that arrives becomes it. */
  lemma {:induction false} TheFirstOfferIsSelected(events: seq<PadEvent>, trail: seq<Snapshot>, n: nat, i: nat)
    requires Handles(events, trail) && n <= |events| && FirstOffer(events, i) && !Ready(trail[0]) && !trail[0].held
    ensures !trail[n].held
    ensures if n <= i then !Ready(trail[n]) else Ready(trail[n]) && HandleOf(trail[n]) == Some(events[i].pad.handle)
  {
    if n > 0 {
      TheFirstOfferIsSelected(events, trail, n - 1, i);
      assert Steered(events[n - 1], trail[n - 1], trail[n]);
    }
  }

  // -------------------------------------------------------------- the events

  /** The last event about this handle was its disconnection. */
  ghost predicate Gone(events: seq<PadEvent>, handle: nat) {
    events != [] &&
    var last := events[|events| - 1];
    (last == PadDisconnected(handle) ||
     (Gone(events[..|events| - 1], handle) && !(last.PadConnected? && last.pad.handle == handle)))
  }

  ghost predicate Announced(events: seq<PadEvent>, handle: nat) {
    exists i | 0 <= i < |events| :: events[i].PadConnected? && events[i].pad.handle == handle
  }

  /** A pad arrives, or a known one that is connected leaves. */
  ghost predicate Stir(event: PadEvent, entries: Entries) {
    event.PadConnected? || (event.PadDisconnected? && Held(entries, event.handle))
  }

  /** Some event changes the inventory the poll began with. */
  ghost predicate Stirs(events: seq<PadEvent>, entries: Entries) {
    exists i | 0 <= i < |events| :: Stir(events[i], entries)
  }

  lemma StirsGrow(events: seq<PadEvent>, i: nat, entries: Entries)
    requires i < |events|
    ensures Stirs(events[..i + 1], entries) <==> Stirs(events[..i], entries) || Stir(events[i], entries)
  {
    var more := events[..i + 1];
    assert more[i] == events[i];
    assert forall k | 0 <= k < i :: more[k] == events[..i][k];
  }

  lemma EventsGrow(events: seq<PadEvent>, i: nat)
    requires i < |events|
    ensures forall h :: Gone(events[..i + 1], h) <==>
      events[i] == PadDisconnected(h) ||
      (Gone(events[..i], h) && !(events[i].PadConnected? && events[i].pad.handle == h))
    ensures forall h :: Announced(events[..i + 1], h) <==>
      Announced(events[..i], h) || (events[i].PadConnected? && events[i].pad.handle == h)
  {
    var more := events[..i + 1];
    assert more[..i] == events[..i] && more[i] == events[i];
    assert forall k | 0 <= k < i :: more[k] == events[..i][k];
    forall h
      ensures Announced(more, h) <==>
        Announced(events[..i], h) || (events[i].PadConnected? && events[i].pad.handle == h)
    {
      if k :| 0 <= k < i && events[..i][k].PadConnected? && events[..i][k].pad.handle == h {
        assert more[k].PadConnected? && more[k].pad.handle == h;
      }
      if events[i].PadConnected? && events[i].pad.handle == h {
        assert more[i].pad.handle == h;
      }
    }
  }

  ghost predicate Listed(pads: seq<Gamepad>, handle: nat) {
    exists i | 0 <= i < |pads| :: pads[i].handle == handle
  }

  /** A seen pad that is still known has a listed handle, if any. */
  ghost predicate HandlesOf(entries: Entries, seen: set<Bytes>, pads: seq<Gamepad>) {
    forall id | id in seen && id in entries && entries[id].handle.Some? :: Listed(pads, entries[id].handle.value)
  }

  /** A seen pad is known with this handle and mapping. */
  ghost predicate SeenHolds(entries: Entries, seen: set<Bytes>, pad: Gamepad) {
    exists id ::
      && id in seen && id in entries
      && entries[id].handle == Some(pad.handle) && entries[id].mapped == pad.mapped
  }

  predicate DistinctHandles(pads: seq<Gamepad>) {
    forall i, j | 0 <= i < j < |pads| :: pads[i].handle != pads[j].handle
  }

  /** The listed pads fit into the registry beside the selection: there are fewer
      than it holds, or just as many and the selection, if any, is one of them. */
  ghost predicate FitsIn(pads: seq<Gamepad>, entries: Entries, selected: Option<Bytes>) {
    && DistinctHandles(pads) && |pads| <= MAX_DEVICE_REGISTRY
    && (|pads| == MAX_DEVICE_REGISTRY && selected.Some? ==> Coming(pads, 0, entries, selected.value))
  }

  /** The pad `id` is listed at `from` or later. */
  ghost predicate Coming(pads: seq<Gamepad>, from: nat, entries: Entries, id: Bytes) {
    id in entries && exists j | from <= j < |pads| :: entries[id].handle == Some(pads[j].handle)
  }

  ghost predicate Shows(entries: Entries, pad: Gamepad) {
    exists id :: id in entries && entries[id].handle == Some(pad.handle) && entries[id].mapped == pad.mapped
  }

  /** Every listed pad is known by its handle, with its mapping. */
  ghost predicate Inventory(entries: Entries, pads: seq<Gamepad>) {
    forall i | 0 <= i < |pads| :: Shows(entries, pads[i])
  }

  /** What one observation does to the registry. */
  ghost predicate Observed(order: seq<Bytes>, before: Entries, newOrder: seq<Bytes>, after: Entries,
                           id: Bytes, pad: Gamepad, selected: Option<Bytes>)
  {
    && id in after && after[id].handle == Some(pad.handle) && after[id].mapped == pad.mapped && after[id].connected
    && Represents(order, before) && Represents(newOrder, after)
    && (Held(before, pad.handle) ==> id in before && before[id].handle == Some(pad.handle))
    && if id in before then
         && before[id].handle in {None, Some(pad.handle)}
         && after == before[id := after[id]] && newOrder == Newest(order, id)
       else
         && Admissible(before, id, after[id])
         && (after, newOrder) == Retained(order + [id], before[id := after[id]], selected)
  }

  ghost predicate IsTail(order: seq<Bytes>, recent: seq<Bytes>) {
    |recent| <= |order| && order[|order| - |recent|..] == recent
  }

  ghost predicate HeldBy(entries: Entries, recent: seq<Bytes>, pads: seq<Gamepad>) {
    && |recent| == |pads|
    && forall j | 0 <= j < |pads| ::
         && recent[j] in entries && entries[recent[j]].connected
         && entries[recent[j]].handle == Some(pads[j].handle) && entries[recent[j]].mapped == pads[j].mapped
  }

  /** The pads listed so far are the newest of the registry, in their order. */
  ghost predicate Recent(order: seq<Bytes>, entries: Entries, recent: seq<Bytes>, pads: seq<Gamepad>) {
    IsTail(order, recent) && HeldBy(entries, recent, pads)
  }

  /** What keeps the recent pads: room for one more besides this one, or no
      selection, or the selection among them or among the pads still to come. */
  ghost predicate Room(pads: seq<Gamepad>, i: nat, entries: Entries, recent: seq<Bytes>, selected: Option<Bytes>) {
    && DistinctHandles(pads) && |pads| <= MAX_DEVICE_REGISTRY
    && (|pads| == MAX_DEVICE_REGISTRY && selected.Some? ==>
          selected.value in recent || Coming(pads, i, entries, selected.value))
  }

  /** An observation moves its pad behind the recent ones and drops none of them. */
  lemma RecentOrder(front: seq<Bytes>, recent: seq<Bytes>, before: Entries, newOrder: seq<Bytes>, after: Entries,
                    id: Bytes, pad: Gamepad, selected: Option<Bytes>)
    returns (newFront: seq<Bytes>)
    requires |recent| < MAX_DEVICE_REGISTRY && id !in recent
    requires id in before || |recent| < MAX_DEVICE_REGISTRY - 1 || selected.None? || selected.value in recent
    requires forall k | k in recent :: k in before && before[k].connected
    requires Observed(front + recent, before, newOrder, after, id, pad, selected)
    ensures newOrder == newFront + (recent + [id])
    ensures forall k | k in recent :: k in after
  {
    if id in before {
      NewestKeepsTail(front, recent, id);
      newFront := Without(front, id);
    } else {
      newFront := AddedLast(front, recent, before, newOrder, after, id, selected);
    }
  }

  lemma AddedLast(front: seq<Bytes>, recent: seq<Bytes>, before: Entries, newOrder: seq<Bytes>, after: Entries,
                  id: Bytes, selected: Option<Bytes>)
    returns (newFront: seq<Bytes>)
    requires |recent| < MAX_DEVICE_REGISTRY
    requires |recent| < MAX_DEVICE_REGISTRY - 1 || selected.None? || selected.value in recent
    requires forall k | k in recent :: k in before && before[k].connected
    requires Represents(front + recent, before)
    requires id !in before && id in after && after[id].connected && Admissible(before, id, after[id])
    requires (after, newOrder) == Retained(front + recent + [id], before[id := after[id]], selected)
    ensures newOrder == newFront + (recent + [id])
    ensures forall k | k in recent :: k in after
  {
    AdditionLists(front + recent, before, id, after[id]);
    assert front + recent + [id] == front + (recent + [id]);
    newFront := RetainedKeepsTail(front, recent + [id], before[id := after[id]], selected);
    assert forall k | k in recent :: k in recent + [id];
  }

  lemma RecentGrows(order: seq<Bytes>, before: Entries, newOrder: seq<Bytes>, after: Entries, recent: seq<Bytes>,
                    pads: seq<Gamepad>, i: nat, id: Bytes, selected: Option<Bytes>)
    requires i < |pads| && Room(pads, i, before, recent, selected) && Recent(order, before, recent, pads[..i])
    requires OnlyOne(before, after, id, pads[i].handle)
    requires Observed(order, before, newOrder, after, id, pads[i], selected)
    requires selected.Some? && selected.value in before ==> selected.value in after
    ensures Recent(newOrder, after, recent + [id], pads[..i + 1])
    ensures Room(pads, i + 1, after, recent + [id], selected)
  {
    RecentDiffer(before, recent, pads, i, id);
    var front := order[..|order| - |recent|];
    assert order == front + recent;
    if |pads| == MAX_DEVICE_REGISTRY && selected.Some? {
      SelectionStays(before, after, recent, pads, i, id, selected.value);
    }
    var newFront := RecentOrder(front, recent, before, newOrder, after, id, pads[i], selected);
    assert newOrder[|newOrder| - |recent + [id]|..] == recent + [id];
    StillHeld(before, after, recent, pads, i, id);
  }

  /** A selection still to come is this pad, or stays to come. */
  lemma SelectionStays(before: Entries, after: Entries, recent: seq<Bytes>, pads: seq<Gamepad>, i: nat,
                       id: Bytes, selected: Bytes)
    requires i < |pads| && DistinctHandles(pads) && HandlesAreExact(before)
    requires selected in recent || Coming(pads, i, before, selected)
    requires OnlyOne(before, after, id, pads[i].handle) && (selected in before ==> selected in after)
    requires Held(before, pads[i].handle) ==> id in before && before[id].handle == Some(pads[i].handle)
    requires id in before ==> before[id].handle in {None, Some(pads[i].handle)}
    ensures selected in recent + [id] || Coming(pads, i + 1, after, selected)
    ensures i == |pads| - 1 && id !in before ==> selected in recent
  {
    if selected !in recent {
      var j :| i <= j < |pads| && before[selected].handle == Some(pads[j].handle);
      if j == i {
        assert Held(before, pads[i].handle);
        assert (recent + [id])[|recent|] == selected;
      } else {
        assert selected != id && after[selected] == before[selected];
      }
    }
  }

  lemma StillHeld(before: Entries, after: Entries, recent: seq<Bytes>, pads: seq<Gamepad>, i: nat, id: Bytes)
    requires i < |pads| && HeldBy(before, recent, pads[..i])
    requires OnlyOne(before, after, id, pads[i].handle) && after[id].connected && after[id].mapped == pads[i].mapped
    requires forall k | k in recent :: k in after && k != id
    ensures HeldBy(after, recent + [id], pads[..i + 1])
  {
    forall j | 0 <= j < i
      ensures recent[j] in after && after[recent[j]] == before[recent[j]]
    {
      assert recent[j] in recent;
    }
  }

  /** The pad observed now is none of the recent ones: their handles differ. */
  lemma RecentDiffer(before: Entries, recent: seq<Bytes>, pads: seq<Gamepad>, i: nat, id: Bytes)
    requires i < |pads| && DistinctHandles(pads) && HeldBy(before, recent, pads[..i])
    requires id in before ==> before[id].handle in {None, Some(pads[i].handle)}
    ensures forall k | k in recent :: k in before && before[k].connected && k != id
  {
    forall k | k in recent
      ensures k in before && before[k].connected && k != id
    {
      var j :| 0 <= j < i && recent[j] == k;
      assert before[k].handle == Some(pads[j].handle) && pads[j].handle != pads[i].handle;
    }
  }

  /** Only `id` may be new or changed, and it has the handle. */
  ghost predicate OnlyOne(before: Entries, after: Entries, id: Bytes, handle: nat) {
    && id in after && after[id].handle == Some(handle)
    && forall k | k in after && k != id :: k in before && after[k] == before[k]
  }

  lemma ListGrows(before: Entries, after: Entries, seen: set<Bytes>, pads: seq<Gamepad>, i: nat, id: Bytes)
    requires i < |pads| && HandlesOf(before, seen, pads[..i])
    requires OnlyOne(before, after, id, pads[i].handle)
    ensures HandlesOf(after, seen + {id}, pads[..i + 1])
    ensures after[id].mapped == pads[i].mapped ==> SeenHolds(after, seen + {id}, pads[i])
  {
    forall k | k in seen + {id} && k in after && after[k].handle.Some?
      ensures Listed(pads[..i + 1], after[k].handle.value)
    {
      if k == id {
        assert pads[..i + 1][i].handle == pads[i].handle;
      } else {
        var j :| 0 <= j < i && pads[..i][j].handle == before[k].handle.value;
        assert pads[..i + 1][j].handle == after[k].handle.value;
      }
    }
  }

  /** What a list says last of a handle: whether its pad is mapped. */
  function LastSaid(pads: seq<Gamepad>, handle: nat): Option<bool> {
    if pads == [] then None
    else if pads[|pads| - 1].handle == handle then Some(pads[|pads| - 1].mapped)
    else LastSaid(pads[..|pads| - 1], handle)
  }

  /** The pad that was the ready selection keeps its place and its handle. It is
      seen exactly when it is listed, and then mapped as the list says last. */
  ghost predicate Watched(start: Snapshot, entries: Entries, seen: set<Bytes>, pads: seq<Gamepad>) {
    Ready(start) ==>
      && HandleOf(start).Some?
      && var (s, said) := (start.selected.value, LastSaid(pads, HandleOf(start).value));
         && s in entries && entries[s].connected && entries[s].handle == HandleOf(start)
         && (s in seen <==> said.Some?)
         && (said.Some? ==> entries[s].mapped == said.value)
  }

  lemma {:induction false} WatchGrows(start: Snapshot, before: Entries, after: Entries, seen: set<Bytes>,
                                      pads: seq<Gamepad>, i: nat, id: Bytes)
    requires i < |pads| && Watched(start, before, seen, pads[..i])
    requires OnlyOne(before, after, id, pads[i].handle) && after[id].connected && after[id].mapped == pads[i].mapped
    requires HandlesAreExact(before)
    requires Held(before, pads[i].handle) ==> id in before && before[id].handle == Some(pads[i].handle)
    requires id in before ==> before[id].handle in {None, Some(pads[i].handle)}
    requires start.selected.Some? && start.selected.value in before ==> start.selected.value in after
    ensures Watched(start, after, seen + {id}, pads[..i + 1])
  {
    assert pads[..i + 1][..i] == pads[..i];
    if Ready(start) && pads[i].handle == HandleOf(start).value {
      assert Held(before, pads[i].handle);
    }
  }

  /** Where an enumeration stands after `i` pads; `fits`: the pads did at first. */
  ghost predicate Listing(order: seq<Bytes>, entries: Entries, seen: set<Bytes>, recent: seq<Bytes>,
                          pads: seq<Gamepad>, i: nat, start: Snapshot, fits: bool)
    requires i <= |pads|
  {
    && HandlesOf(entries, seen, pads[..i])
    && (i > 0 ==> SeenHolds(entries, seen, pads[i - 1]))
    && (fits ==> Recent(order, entries, recent, pads[..i]) && Room(pads, i, entries, recent, start.selected))
    && (forall k | k in recent :: k in seen)
    && Watched(start, entries, seen, pads[..i])
  }

  lemma ListingBegins(order: seq<Bytes>, pads: seq<Gamepad>, start: Snapshot)
    requires HandlesAreExact(start.entries)
    ensures Listing(order, start.entries, {}, [], pads, 0, start, FitsIn(pads, start.entries, start.selected))
  {
  }

  lemma ListingGrows(order: seq<Bytes>, before: Entries, newOrder: seq<Bytes>, after: Entries, seen: set<Bytes>,
                     recent: seq<Bytes>, pads: seq<Gamepad>, i: nat, id: Bytes, start: Snapshot, fits: bool)
    requires i < |pads| && Listing(order, before, seen, recent, pads, i, start, fits)
    requires OnlyOne(before, after, id, pads[i].handle)
    requires Observed(order, before, newOrder, after, id, pads[i], start.selected)
    requires start.selected.Some? && start.selected.value in before ==> start.selected.value in after
    ensures Listing(newOrder, after, seen + {id}, recent + [id], pads, i + 1, start, fits)
  {
    ListGrows(before, after, seen, pads, i, id);
    WatchGrows(start, before, after, seen, pads, i, id);
    if fits {
      RecentGrows(order, before, newOrder, after, recent, pads, i, id, start.selected);
    }
  }

  lemma ListingShows(order: seq<Bytes>, entries: Entries, seen: set<Bytes>, recent: seq<Bytes>, pads: seq<Gamepad>,
                     start: Snapshot, fits: bool)
    requires Listing(order, entries, seen, recent, pads, |pads|, start, fits)
    ensures Watched(start, entries, seen, pads)
    ensures HandlesOf(entries, seen, pads)
    ensures pads != [] ==> SeenHolds(entries, seen, pads[|pads| - 1])
    ensures fits ==> forall i | 0 <= i < |pads| :: SeenHolds(entries, seen, pads[i])
  {
    assert pads[..|pads|] == pads;
    if fits {
      forall i | 0 <= i < |pads|
        ensures SeenHolds(entries, seen, pads[i])
      {
        assert recent[i] in recent;
      }
    }
  }

  lemma UnseenAreFreed(entries: Entries, seen: set<Bytes>, pads: seq<Gamepad>)
    requires HandlesOf(entries, seen, pads)
    ensures forall h | Held(Unplugged(entries, seen), h) :: Listed(pads, h)
    ensures forall i | 0 <= i < |pads| && SeenHolds(entries, seen, pads[i]) :: Shows(Unplugged(entries, seen), pads[i])
  {
    forall i | 0 <= i < |pads| && SeenHolds(entries, seen, pads[i])
      ensures Shows(Unplugged(entries, seen), pads[i])
    {
      var id :| id in seen && id in entries
        && entries[id].handle == Some(pads[i].handle) && entries[id].mapped == pads[i].mapped;
      assert Unplugged(entries, seen)[id] == entries[id];
    }
  }

  /** A ready selection stays, with authority over it, exactly while its pad is
      listed with its mapping. */
  ghost predicate Relisted(start: Snapshot, next: Snapshot, pads: seq<Gamepad>) {
    Ready(start) ==>
      && HandleOf(start).Some?
      && if LastSaid(pads, HandleOf(start).value) == Some(true) then Stays(start, next) else !next.held
  }

  /** Freeing the unseen pads leaves the selection ready exactly if it is listed
      with its mapping. */
  lemma WatchedStays(start: Snapshot, entries: Entries, seen: set<Bytes>, pads: seq<Gamepad>)
    requires Watched(start, entries, seen, pads) && HandlesAreExact(entries)
    ensures var kept := start.(entries := Unplugged(entries, seen));
            && Relisted(start, if Ready(kept) then kept else kept.(held := false), pads)
            && (Ready(start) && Ready(kept) ==> LastSaid(pads, HandleOf(start).value) == Some(true))
  {
  }

  /** In a full inventory the fallback is a known pad, and a usable one. */
  lemma FallbackIsUsable(entries: Entries, pads: seq<Gamepad>)
    requires HandlesAreExact(entries)
    ensures Inventory(entries, pads) && FirstMapped(pads).Some? ==> Held(entries, FirstMapped(pads).value)
    ensures Inventory(entries, pads) && FirstMapped(pads).Some? ==>
      forall id | id in entries && entries[id].handle == FirstMapped(pads) ::
        entries[id].connected && entries[id].mapped
  {
    if Inventory(entries, pads) && FirstMapped(pads).Some? {
      var i := FirstMappedIsListed(pads);
      assert Shows(entries, pads[i]);
      var k :| k in entries && entries[k].handle == Some(pads[i].handle) && entries[k].mapped == pads[i].mapped;
    }
  }

  lemma {:induction false} FirstMappedIsListed(pads: seq<Gamepad>) returns (i: nat)
    requires FirstMapped(pads).Some?
    ensures i < |pads| && pads[i].mapped && FirstMapped(pads) == Some(pads[i].handle)
  {
    if pads[0].mapped {
      i := 0;
    } else {
      var rest := FirstMappedIsListed(pads[1..]);
      i := rest + 1;
    }
  }
}

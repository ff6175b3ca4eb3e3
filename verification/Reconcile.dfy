/** Snapshot-plus-follow reconciliation (cli/src/reconcile.rs).

    `Reconciler` is the client's object. `Follow` and `Install` below it are what
    its methods compute; the `Supervisor` section puts the object beside the
    append-only log it reads and lets every call happen in any order. */
module Reconcile {
  import opened Wrappers

  const U64_MAX: nat := 0xFFFF_FFFF_FFFF_FFFF

  type Sequence = n: nat | n <= U64_MAX

  datatype Item<+R> = Item(sequence: Sequence, record: R)

  datatype Outcome<+R> =
    | Buffered
    | Append(item: Item<R>)
    | Installed(snapshot: seq<Item<R>>, replay: seq<Item<R>>)
    | Requery

  datatype State<+R> = State(cursor: Option<Sequence>, buffer: seq<Item<R>>, querying: bool)

  /** `saturating_add(1)` on a 64-bit cursor. */
  function Successor(n: Sequence): Sequence {
    if n == U64_MAX then U64_MAX else n + 1
  }

  // ------------------------------------------------------------------ follow

  function Follow<R>(state: State<R>, capacity: nat, item: Item<R>): (State<R>, Outcome<R>)
    requires 0 < capacity
  {
    if state.querying then
      var kept := if |state.buffer| == capacity then state.buffer[1..] else state.buffer;
      (state.(buffer := kept + [item]), Buffered)
    else if state.cursor.None? then
      (state.(querying := true), Requery)
    else if item.sequence != Successor(state.cursor.value) then
      (state.(querying := true, buffer := []), Requery)
    else
      (state.(cursor := Some(item.sequence)), Append(item))
  }

  // ----------------------------------------------------------------- install

  datatype Drained<+R> = Drained(replay: seq<Item<R>>, cursor: Sequence)

  /** What draining `buffer` on top of a page that ends at `installed` yields:
      `None` when a buffered record lies beyond the next sequence. */
  function Drain<R>(buffer: seq<Item<R>>, installed: Sequence): Option<Drained<R>> {
    if buffer == [] then Some(Drained([], installed))
    else
      var next := buffer[0].sequence;
      if next <= installed then Drain(buffer[1..], installed)
      else if next != Successor(installed) then None
      else
        After([buffer[0]], Drain(buffer[1..], next))
  }

  function After<R>(replay: seq<Item<R>>, rest: Option<Drained<R>>): Option<Drained<R>> {
    match rest
    case None => None
    case Some(drained) => Some(Drained(replay + drained.replay, drained.cursor))
  }

  lemma AfterComposes<R>(first: seq<Item<R>>, second: seq<Item<R>>, rest: Option<Drained<R>>)
    ensures After(first, After(second, rest)) == After(first + second, rest)
    ensures After([], rest) == rest
  {
    if rest.Some? {
      assert first + (second + rest.value.replay) == first + second + rest.value.replay;
      assert [] + rest.value.replay == rest.value.replay;
    }
  }

  function Install<R>(state: State<R>, cursor: Sequence, snapshot: seq<Item<R>>): (State<R>, Outcome<R>) {
    match Drain(state.buffer, cursor)
    case None => (State(state.cursor, [], true), Requery)
    case Some(drained) => (State(Some(drained.cursor), [], false), Installed(snapshot, drained.replay))
  }

  /** The highest sequence among a page that ends at `anchor` and `buffer`. */
  function High<R>(buffer: seq<Item<R>>, anchor: Sequence): Sequence {
    if buffer == [] then anchor
    else High(buffer[1..], if buffer[0].sequence <= anchor then anchor else buffer[0].sequence)
  }

  /** Record `k` leaves a sequence between it and everything received before it. */
  ghost predicate Hole<R>(buffer: seq<Item<R>>, anchor: Sequence, k: nat)
    requires k < |buffer|
  {
    buffer[k].sequence > High(buffer[..k], anchor) + 1
  }

  /** A replay is exactly the missing tail: the records after `anchor` up to the
      highest one buffered, each taken from the buffer. */
  ghost predicate Continues<R>(drained: Drained<R>, buffer: seq<Item<R>>, anchor: Sequence) {
    && drained.cursor == High(buffer, anchor) == anchor + |drained.replay|
    && forall i | 0 <= i < |drained.replay| ::
         drained.replay[i].sequence == anchor + 1 + i && drained.replay[i] in buffer
  }

  /** Draining starts over exactly when the surviving buffer exposes a hole. */
  lemma {:induction false} DrainRequeriesExactlyOnAHole<R>(buffer: seq<Item<R>>, anchor: Sequence)
    ensures Drain(buffer, anchor).None? <==> exists k | 0 <= k < |buffer| :: Hole(buffer, anchor, k)
    ensures Drain(buffer, anchor).Some? ==> Continues(Drain(buffer, anchor).value, buffer, anchor)
  {
    if buffer == [] {
    } else {
      var rest, next := buffer[1..], buffer[0].sequence;
      var after := if next <= anchor then anchor else next;
      assert Hole(buffer, anchor, 0) <==> next > anchor + 1;
      DrainRequeriesExactlyOnAHole(rest, after);
      forall k | 0 <= k < |rest| ensures Hole(rest, after, k) <==> Hole(buffer, anchor, k + 1) {
        assert buffer[..k + 1][1..] == rest[..k];
      }
      if next <= anchor + 1 {
        assert (exists k | 0 <= k < |rest| :: Hole(rest, after, k))
          <==> (exists k | 0 <= k < |buffer| :: Hole(buffer, anchor, k)) by {
          if k :| 0 <= k < |buffer| && Hole(buffer, anchor, k) {
            assert Hole(rest, after, k - 1);
          }
          if k :| 0 <= k < |rest| && Hole(rest, after, k) {
            assert Hole(buffer, anchor, k + 1);
          }
        }
      }
    }
  }

  /** A follower that lost nothing is never sent back: whatever part of an
      unbroken run the page covers is dropped and all of the rest is replayed. */
  lemma {:induction false} UnbrokenBufferAlwaysInstalls<R>(buffer: seq<Item<R>>, first: nat, anchor: Sequence)
    requires forall i | 0 <= i < |buffer| :: buffer[i].sequence == first + i
    requires first <= anchor + 1
    ensures var drained := Drain(buffer, anchor);
            var covered := if anchor + 1 - first <= |buffer| then anchor + 1 - first else |buffer|;
            && drained.Some?
            && drained.value.replay == buffer[covered..]
            && drained.value.cursor == anchor + (|buffer| - covered)
    decreases |buffer|
  {
    if buffer == [] {
    } else {
      assert buffer[0].sequence == first;
      UnbrokenBufferAlwaysInstalls(buffer[1..], first + 1, if first <= anchor then anchor else first);
    }
  }

  // -------------------------------------------------------------- the object

  class Reconciler<R> {
    var cursor: Option<Sequence>
    var buffer: seq<Item<R>>
    const bufferCapacity: nat
    var querying: bool

    ghost predicate Valid()
      reads this
    {
      && 0 < bufferCapacity
      && |buffer| <= bufferCapacity
    }

    function View(): State<R>
      reads this
    {
      State(cursor, buffer, querying)
    }

    constructor (capacity: nat)
      ensures Valid()
      ensures View() == State(None, [], true)
      ensures bufferCapacity == if capacity < 1 then 1 else capacity
    {
      cursor := None;
      buffer := [];
      bufferCapacity := if capacity < 1 then 1 else capacity;
      querying := true;
    }

    method BeginQuery()
      requires Valid()
      modifies this
      ensures Valid()
      ensures View() == old(View()).(querying := true)
    {
      querying := true;
    }

    method LocalDrop() returns (outcome: Outcome<R>)
      requires Valid()
      modifies this
      ensures Valid()
      ensures View() == State(old(cursor), [], true)
      ensures outcome == Requery
    {
      BeginQuery();
      buffer := [];
      outcome := Requery;
    }

    method FollowItem(item: Item<R>) returns (outcome: Outcome<R>)
      requires Valid()
      modifies this
      ensures Valid()
      ensures (View(), outcome) == Follow(old(View()), bufferCapacity, item)
    {
      if querying {
        if |buffer| == bufferCapacity {
          buffer := buffer[1..];
        }
        buffer := buffer + [item];
        return Buffered;
      }
      var next := item.sequence;
      if cursor.None? {
        BeginQuery();
        return Requery;
      }
      if next != Successor(cursor.value) {
        BeginQuery();
        buffer := [];
        return Requery;
      }
      cursor := Some(next);
      outcome := Append(item);
    }

    method InstallPage(page: Sequence, snapshot: seq<Item<R>>) returns (outcome: Outcome<R>)
      requires Valid()
      modifies this
      ensures Valid()
      ensures (View(), outcome) == Install(old(View()), page, snapshot)
    {
      var installed := page;
      var replay: seq<Item<R>> := [];
      AfterComposes<R>([], [], Drain(buffer, installed));
      while |buffer| > 0
        invariant |buffer| <= bufferCapacity && cursor == old(cursor)
        invariant Drain(old(buffer), page) == After(replay, Drain(buffer, installed))
        decreases |buffer|
      {
        var item := buffer[0];
        buffer := buffer[1..];
        var next := item.sequence;
        if next < installed {
          continue;
        }
        if next == installed {
          continue;
        }
        if next != Successor(installed) {
          BeginQuery();
          buffer := [];
          return Requery;
        }
        AfterComposes(replay, [item], Drain(buffer, next));
        installed := next;
        replay := replay + [item];
      }
      assert replay + [] == replay;
      cursor := Some(installed);
      querying := false;
      outcome := Installed(snapshot, replay);
    }
  }

  // ------------------------------------------------ the supervisor's own log

  /** The record with sequence `s` is `log[s - 1]`; an empty log's cursor is 0. */
  function Page<R>(log: seq<R>, low: nat, high: nat): (page: seq<Item<R>>)
    requires low <= high <= |log| <= U64_MAX
    ensures |page| == high - low
  {
    seq(high - low, i requires 0 <= i < high - low => Item(low + i + 1, log[low + i]))
  }

  /** `shown` is the last installed snapshot, its replay and every later append;
      `start` is the sequence the snapshot begins after. */
  datatype Attachment<R> = Attachment(log: seq<R>, client: State<R>, start: nat, shown: seq<Item<R>>)

  /** One event, in any order: the supervisor appends a record, the follow stream
      delivers any record of the log (so it may lose, repeat or reorder them), the
      client begins a query or drops its buffer, a query is answered with any
      contiguous page of the log at that moment. */
  datatype Event<+R> =
    | Publish(record: R)
    | Deliver(sequence: nat)
    | BeginQuery
    | LocalDrop
    | Answer(low: nat, high: nat)

  function Begin<R>(): Attachment<R> {
    Attachment([], State(None, [], true), 0, [])
  }

  /** An event that cannot occur (a record or page the log does not hold, a
      sequence that would reach the top of the range) leaves the state alone. */
  function Apply<R>(a: Attachment<R>, capacity: nat, event: Event<R>): Attachment<R>
    requires 0 < capacity && |a.log| < U64_MAX
    ensures |Apply(a, capacity, event).log| < U64_MAX
  {
    match event
    case Publish(record) => if |a.log| + 1 < U64_MAX then a.(log := a.log + [record]) else a
    case BeginQuery => a.(client := a.client.(querying := true))
    case LocalDrop => a.(client := State(a.client.cursor, [], true))
    case Deliver(sequence) =>
      if 1 <= sequence <= |a.log| then
        var (client, outcome) := Follow(a.client, capacity, Item(sequence, a.log[sequence - 1]));
        if outcome.Append? then a.(client := client, shown := a.shown + [outcome.item])
        else a.(client := client)
      else a
    case Answer(low, high) =>
      if low <= high <= |a.log| then
        var (client, outcome) := Install(a.client, high, Page(a.log, low, high));
        if outcome.Installed? then
          a.(client := client, start := low, shown := outcome.snapshot + outcome.replay)
        else a.(client := client)
      else a
  }

  function Run<R>(a: Attachment<R>, capacity: nat, events: seq<Event<R>>): (b: Attachment<R>)
    requires 0 < capacity && |a.log| < U64_MAX
    ensures |b.log| < U64_MAX
    decreases |events|
  {
    if events == [] then a
    else Run(Apply(a, capacity, events[0]), capacity, events[1..])
  }

  ghost predicate Authentic<R>(log: seq<R>, items: seq<Item<R>>) {
    forall item | item in items ::
      1 <= item.sequence <= |log| && item.record == log[item.sequence - 1]
  }

  /** What the client shows is the gap-free, duplicate-free stretch of the log
      from `start` to the cursor. */
  ghost predicate ShowsOneSegment<R>(a: Attachment<R>) {
    if a.client.cursor.None? then a.shown == []
    else
      && |a.log| <= U64_MAX
      && a.start <= a.client.cursor.value <= |a.log|
      && a.shown == Page(a.log, a.start, a.client.cursor.value)
  }

  ghost predicate Sound<R>(a: Attachment<R>, capacity: nat) {
    && |a.log| < U64_MAX
    && |a.client.buffer| <= capacity
    && Authentic(a.log, a.client.buffer)
    && ShowsOneSegment(a)
    && (!a.client.querying ==> a.client.cursor.Some? && a.client.buffer == [])
  }

  lemma InstallKeepsTheSegment<R>(a: Attachment<R>, capacity: nat, low: nat, high: nat)
    requires 0 < capacity && Sound(a, capacity)
    requires low <= high <= |a.log|
    ensures Sound(Apply(a, capacity, Answer(low, high)), capacity)
  {
    var page := Page(a.log, low, high);
    DrainRequeriesExactlyOnAHole(a.client.buffer, high);
    match Drain(a.client.buffer, high)
    case None =>
    case Some(drained) =>
      var shown := page + drained.replay;
      if drained.replay != [] {
        assert drained.replay[|drained.replay| - 1] in a.client.buffer;
      }
      forall i | 0 <= i < |shown| ensures shown[i] == Item(low + i + 1, a.log[low + i]) {
        if i >= |page| {
          assert drained.replay[i - |page|] in a.client.buffer;
        }
      }
      assert shown == Page(a.log, low, drained.cursor);
  }

  lemma ApplyKeepsTheSegment<R>(a: Attachment<R>, capacity: nat, event: Event<R>)
    requires 0 < capacity && Sound(a, capacity)
    ensures Sound(Apply(a, capacity, event), capacity)
  {
    var b := Apply(a, capacity, event);
    match event
    case Publish(record) =>
      if a.client.cursor.Some? {
        assert b.shown == Page(b.log, b.start, b.client.cursor.value);
      }
    case Deliver(sequence) =>
      if 1 <= sequence <= |a.log| && !a.client.querying && sequence == Successor(a.client.cursor.value) {
        assert b.shown == Page(b.log, b.start, sequence);
      }
    case Answer(low, high) =>
      if low <= high <= |a.log| {
        InstallKeepsTheSegment(a, capacity, low, high);
      }
    case BeginQuery =>
    case LocalDrop =>
  }

  /** Over every run, the client's view refines the supervisor's log. */
  lemma {:induction false} EveryRunShowsOneSegment<R>(a: Attachment<R>, capacity: nat, events: seq<Event<R>>)
    requires 0 < capacity && Sound(a, capacity)
    ensures Sound(Run(a, capacity, events), capacity)
    decreases |events|
  {
    if events == [] {
    } else {
      ApplyKeepsTheSegment(a, capacity, events[0]);
      EveryRunShowsOneSegment(Apply(a, capacity, events[0]), capacity, events[1..]);
    }
  }

  lemma AttachmentShowsOneSegment<R>(capacity: nat, events: seq<Event<R>>)
    requires 0 < capacity
    ensures ShowsOneSegment(Run(Begin<R>(), capacity, events))
  {
    EveryRunShowsOneSegment(Begin<R>(), capacity, events);
  }

  /** While page cursors do not regress, neither does the client's. */
  lemma CursorNeverRegresses<R>(a: Attachment<R>, capacity: nat, event: Event<R>)
    requires 0 < capacity && Sound(a, capacity) && a.client.cursor.Some?
    requires event.Answer? ==> a.client.cursor.value <= event.high
    ensures var after := Apply(a, capacity, event).client.cursor;
            after.Some? && a.client.cursor.value <= after.value
  {
    if event.Answer? && event.low <= event.high <= |a.log| {
      DrainRequeriesExactlyOnAHole(a.client.buffer, event.high);
    }
  }

  // ------------------------------------------------------------- catching up

  /** The client shows the log from `start` to `cursor` and is waiting for the next. */
  ghost predicate Live<R>(a: Attachment<R>, cursor: nat) {
    && a.start <= cursor <= |a.log| < U64_MAX
    && a.client == State(Some(cursor), [], false) && a.shown == Page(a.log, a.start, cursor)
  }

  /** A live client accepts the record after its cursor and no other: anything
      else sends it back to query, with nothing shown and nothing lost. */
  lemma OnlyTheNextRecordIsAccepted<R>(a: Attachment<R>, capacity: nat, cursor: nat, sequence: nat)
    requires 0 < capacity && Live(a, cursor) && 1 <= sequence <= |a.log|
    ensures var b := Apply(a, capacity, Deliver(sequence));
            if sequence == cursor + 1 then Live(b, cursor + 1) && b.log == a.log && b.start == a.start
            else b == a.(client := State(Some(cursor), [], true))
  {
    if sequence == cursor + 1 {
      assert Page(a.log, a.start, sequence) == a.shown + [Item(sequence, a.log[sequence - 1])];
    }
  }

  /** The follow stream without a fault: `count` records after `cursor`, in order. */
  function Stream<R>(cursor: nat, count: nat): (events: seq<Event<R>>)
    ensures |events| == count
    decreases count
  {
    if count == 0 then [] else [Deliver(cursor + 1)] + Stream(cursor + 1, count - 1)
  }

  /** A live client that is sent the log's next records shows them all and never
      queries again. */
  lemma {:induction false} ALiveClientFollows<R>(a: Attachment<R>, capacity: nat, cursor: nat, count: nat)
    requires 0 < capacity && Live(a, cursor) && cursor + count <= |a.log|
    ensures var b := Run(a, capacity, Stream(cursor, count));
            Live(b, cursor + count) && b.log == a.log && b.start == a.start
    decreases count
  {
    if count > 0 {
      OnlyTheNextRecordIsAccepted(a, capacity, cursor, cursor + 1);
      ALiveClientFollows(Apply(a, capacity, Deliver(cursor + 1)), capacity, cursor + 1, count - 1);
    }
  }

  /** The client waits for a page and has kept the log from `from` to `upto`. */
  ghost predicate Keeping<R>(a: Attachment<R>, from: nat, upto: nat) {
    && from <= upto <= |a.log| < U64_MAX
    && a.client.querying && a.client.buffer == Page(a.log, from, upto)
  }

  /** While querying a record is kept, and at the capacity the oldest one goes. */
  lemma AQueryingClientKeepsTheNewest<R>(a: Attachment<R>, capacity: nat, from: nat, upto: nat)
    requires 0 < capacity && Keeping(a, from, upto) && upto - from <= capacity && upto < |a.log|
    ensures var b := Apply(a, capacity, Deliver(upto + 1));
            && Keeping(b, if upto - from == capacity then from + 1 else from, upto + 1)
            && b == a.(client := a.client.(buffer := b.client.buffer))
  {
    var first := if upto - from == capacity then from + 1 else from;
    assert Page(a.log, first, upto) == a.client.buffer[first - from..];
    assert Page(a.log, first, upto + 1) == Page(a.log, first, upto) + [Item(upto + 1, a.log[upto])];
    if first == from {
      assert a.client.buffer[0..] == a.client.buffer;
    }
  }

  lemma {:induction false} AQueryingClientKeepsTheStream<R>(
    a: Attachment<R>, capacity: nat, from: nat, upto: nat, count: nat)
    requires 0 < capacity && Keeping(a, from, upto) && upto - from <= capacity && upto + count <= |a.log|
    ensures var b := Run(a, capacity, Stream(upto, count));
            && Keeping(b, if upto + count - from <= capacity then from else upto + count - capacity, upto + count)
            && b == a.(client := a.client.(buffer := b.client.buffer))
    decreases count
  {
    if count > 0 {
      AQueryingClientKeepsTheNewest(a, capacity, from, upto);
      AQueryingClientKeepsTheStream(Apply(a, capacity, Deliver(upto + 1)), capacity,
                                    if upto - from == capacity then from + 1 else from, upto + 1, count - 1);
    }
  }

  lemma PagesJoin<R>(log: seq<R>, low: nat, middle: nat, high: nat)
    requires low <= middle <= high <= |log| <= U64_MAX
    ensures Page(log, low, high) == Page(log, low, middle) + Page(log, middle, high)
  {
  }

  lemma PagesCut<R>(log: seq<R>, low: nat, middle: nat, high: nat)
    requires low <= middle <= high <= |log| <= U64_MAX
    ensures Page(log, low, high)[middle - low..] == Page(log, middle, high)
  {
  }

  lemma ALateBufferRequeries<R>(buffer: seq<Item<R>>, high: Sequence)
    requires buffer != [] && buffer[0].sequence > high + 1
    ensures Drain(buffer, high).None?
  {
  }

  /** Draining an unbroken stretch of the log leaves what the page does not cover. */
  lemma {:induction false} PagesDrain<R>(log: seq<R>, from: nat, upto: nat, high: nat)
    requires from < upto <= |log| < U64_MAX && high <= |log|
    ensures Drain(Page(log, from, upto), high) ==
      if from > high then None
      else if upto <= high then Some(Drained([], high)) else Some(Drained(Page(log, high, upto), upto))
  {
    if from > high {
      ALateBufferRequeries(Page(log, from, upto), high);
    } else {
      UnbrokenBufferAlwaysInstalls(Page(log, from, upto), from + 1, high);
      PagesCut(log, from, if upto <= high then upto else high, upto);
    }
  }

  /** A page brings a client with an unbroken buffer up to whichever ends later,
      exactly when the buffer begins no later than the page's end. */
  lemma APageMeetsTheStream<R>(a: Attachment<R>, capacity: nat, from: nat, upto: nat, low: nat, high: nat)
    requires 0 < capacity && Keeping(a, from, upto) && from < upto && low <= high <= |a.log|
    ensures var b := Apply(a, capacity, Answer(low, high));
            if from <= high then
              Live(b, if upto <= high then high else upto) && b.start == low && b.log == a.log
            else b == a.(client := State(a.client.cursor, [], true))
  {
    PagesDrain(a.log, from, upto, high);
    PagesJoin(a.log, low, high, if upto <= high then high else upto);
  }

  /** A client asks and keeps what the stream brings meanwhile. Its answer makes
      it live, with the log shown without a break to the end of both, exactly when
      the stream has run no further past the page than the buffer holds. */
  lemma AQueryCatchesUp<R>(a: Attachment<R>, capacity: nat, cursor: nat, count: nat, low: nat, high: nat)
    requires 0 < capacity && a.client.querying && a.client.buffer == []
    requires cursor + count <= |a.log| < U64_MAX && low <= high <= |a.log| && cursor <= high
    ensures var b := Apply(Run(a, capacity, Stream(cursor, count)), capacity, Answer(low, high));
            if cursor + count <= high + capacity then
              Live(b, if cursor + count <= high then high else cursor + count) && b.start == low && b.log == a.log
            else b == a.(client := State(a.client.cursor, [], true))
  {
    assert Keeping(a, cursor, cursor);
    AQueryingClientKeepsTheStream(a, capacity, cursor, cursor, count);
    var from := if count <= capacity then cursor else cursor + count - capacity;
    if count == 0 {
      assert Page(a.log, low, high) + [] == Page(a.log, low, high);
    } else {
      APageMeetsTheStream(Run(a, capacity, Stream(cursor, count)), capacity, from, cursor + count, low, high);
    }
  }

  /** An append is the record after the cursor exactly below the top of the
      64-bit range; at the top the saturated comparison accepts a repeat. */
  lemma AppendIsNextExactlyBelowTheTop<R>(state: State<R>, capacity: nat, item: Item<R>)
    requires 0 < capacity && !state.querying && state.cursor.Some?
    requires Follow(state, capacity, item).1.Append?
    ensures item.sequence == state.cursor.value + 1 <==> state.cursor.value < U64_MAX
    ensures item.sequence == state.cursor.value <==> state.cursor.value == U64_MAX
  {
  }

  lemma ARepeatIsAcceptedAtTheTop()
    ensures var state := State(Some(U64_MAX), [], false);
            Follow(state, 1, Item(U64_MAX, 'r')) == (state, Append(Item(U64_MAX, 'r')))
  {
  }

  // ----------------------------------------------------------- retry backoff

  function Doubled(initial: nat, maximum: nat, attempt: nat): nat {
    if attempt == 0 then Smaller(initial, maximum) else Smaller(2 * Doubled(initial, maximum, attempt - 1), maximum)
  }

  function Smaller(a: nat, b: nat): nat {
    if a <= b then a else b
  }

  function Power2(n: nat): nat {
    if n == 0 then 1 else 2 * Power2(n - 1)
  }

  class RetryBackoff {
    const initial: nat
    const maximum: nat
    var next: nat
    ghost var attempt: nat

    ghost predicate Valid()
      reads this
    {
      initial <= maximum && next == Doubled(initial, maximum, attempt)
    }

    constructor (initial: nat, maximum: nat)
      ensures Valid() && attempt == 0
      ensures this.initial == Smaller(initial, maximum) && this.maximum == maximum
    {
      var first := Smaller(initial, maximum);
      this.initial := first;
      this.maximum := maximum;
      this.next := first;
      this.attempt := 0;
    }

    method Reset()
      requires Valid()
      modifies this
      ensures Valid() && attempt == 0
    {
      next := initial;
      attempt := 0;
    }

    /** The durations are unbounded here: a product that saturates is above
        `maximum` either way. */
    method NextDelay() returns (delay: nat)
      requires Valid()
      modifies this
      ensures Valid() && attempt == old(attempt) + 1
      ensures delay == Doubled(initial, maximum, old(attempt))
    {
      delay := next;
      next := Smaller(2 * next, maximum);
      attempt := attempt + 1;
    }
  }

  /** The n-th delay since a reset is `initial * 2^n`, cut at the maximum. */
  lemma {:induction false} DelayDoublesUpToTheMaximum(initial: nat, maximum: nat, attempt: nat)
    ensures Doubled(initial, maximum, attempt) == Smaller(initial * Power2(attempt), maximum)
  {
    if attempt == 0 {
    } else {
      DelayDoublesUpToTheMaximum(initial, maximum, attempt - 1);
      var before := initial * Power2(attempt - 1);
      assert initial * Power2(attempt) == 2 * before by {
        assert Power2(attempt) == 2 * Power2(attempt - 1);
      }
    }
  }
}

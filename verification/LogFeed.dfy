/** The log feed as one client of the reconciler and the log store
    (cli/src/attach/feeds/logs.rs). */
module LogFeed {
  import opened Wrappers
  import opened Reconcile
  import Stores

  const BUFFER: nat := 1_024

  function Rows<R, Row>(items: seq<Item<R>>, row: R -> Row): (rows: seq<Row>)
    ensures |rows| == |items|
  {
    seq(|items|, i requires 0 <= i < |items| => row(items[i].record))
  }

  datatype PageRange = PageRange(low: nat, high: nat)

  /** The store shows the newest rows of one unbroken stretch of the log that
      ends at the reconciler's cursor; before the first page it shows nothing. */
  ghost predicate ShowsTheLog<R, Row>(log: seq<R>, row: R -> Row, client: State<R>, start: nat, rows: seq<Row>) {
    match client.cursor
    case None => rows == []
    case Some(cursor) =>
      && start <= cursor <= |log| <= U64_MAX
      && rows == Stores.Last(Rows(Page(log, start, cursor), row), Stores.LOG_CAPACITY)
  }

  /** The reconciler's state against the log, with what the feed has shown. */
  ghost function Shown<R>(log: seq<R>, client: State<R>, start: nat): Attachment<R>
    requires client.cursor.Some? ==> start <= client.cursor.value <= |log| <= U64_MAX
  {
    Attachment(log, client, start, if client.cursor.None? then [] else Page(log, start, client.cursor.value))
  }

  /** What holds between any two receives of the feed. */
  ghost predicate Linked<R, Row>(
    log: seq<R>, row: R -> Row, reconciler: Reconciler<R>, start: nat, store: Stores.LogStore<Row>)
    reads reconciler, store
  {
    && reconciler.Valid() && store.Valid()
    && ShowsTheLog(log, row, reconciler.View(), start, store.rows)
    && Sound(Shown(log, reconciler.View(), start), reconciler.bufferCapacity)
  }

  /** Hand one outcome to the store. */
  method ApplyOutcome<R, Row(==)>(outcome: Outcome<R>, row: R -> Row, store: Stores.LogStore<Row>)
    requires store.Valid()
    modifies store
    ensures store.Valid()
    ensures outcome.Installed? ==>
      store.rows == Stores.Last(Rows(outcome.snapshot + outcome.replay, row), Stores.LOG_CAPACITY)
    ensures outcome.Append? ==>
      store.rows == Stores.Last(old(store.rows) + [row(outcome.item.record)], Stores.LOG_CAPACITY)
    ensures outcome.Buffered? || outcome.Requery? ==> store.rows == old(store.rows)
  {
    match outcome
    case Installed(snapshot, replay) =>
      var _ := store.InstallSnapshot(store.epoch, Rows(snapshot + replay, row));
    case Append(item) =>
      var _ := store.Record(store.epoch, row(item.record));
    case Buffered =>
    case Requery =>
  }

  method Query<R, Row(==)>(
    log: seq<R>, row: R -> Row, page: PageRange,
    reconciler: Reconciler<R>, ghost start: nat, store: Stores.LogStore<Row>)
    returns (requery: bool, ghost newStart: nat)
    requires page.low <= page.high <= |log|
    requires Linked(log, row, reconciler, start, store)
    modifies reconciler, store
    ensures Linked(log, row, reconciler, newStart, store)
    ensures requery <==> reconciler.querying
    ensures Shown(log, reconciler.View(), newStart)
         == Apply(Apply(old(Shown(log, reconciler.View(), start)), reconciler.bufferCapacity, BeginQuery),
                  reconciler.bufferCapacity, Answer(page.low, page.high))
  {
    reconciler.BeginQuery();
    InstallKeepsTheSegment(Shown(log, reconciler.View(), start), reconciler.bufferCapacity, page.low, page.high);
    var outcome := reconciler.InstallPage(page.high, Page(log, page.low, page.high));
    ApplyOutcome(outcome, row, store);
    requery := outcome.Requery?;
    newStart := if requery then start else page.low;
  }

  method Receive<R, Row(==)>(
    log: seq<R>, row: R -> Row, sequence: nat, reconciler: Reconciler<R>, ghost start: nat, store: Stores.LogStore<Row>)
    returns (requery: bool)
    requires 1 <= sequence <= |log|
    requires Linked(log, row, reconciler, start, store) && !reconciler.querying
    modifies reconciler, store
    ensures Linked(log, row, reconciler, start, store)
    ensures requery <==> reconciler.querying
    ensures Shown(log, reconciler.View(), start)
         == Apply(old(Shown(log, reconciler.View(), start)), reconciler.bufferCapacity, Deliver(sequence))
  {
    ghost var shown, rows := Shown(log, reconciler.View(), start), store.rows;
    ApplyKeepsTheSegment(shown, reconciler.bufferCapacity, Deliver(sequence));
    var outcome := reconciler.FollowItem(Item(sequence, log[sequence - 1]));
    ApplyOutcome(outcome, row, store);
    if outcome.Append? {
      AppendShows(log, row, shown.client, start, sequence, rows);
    }
    requery := outcome.Requery?;
  }

  /** One query, as the two events it is in the run. */
  method AskAgain<R, Row(==)>(
    log: seq<R>, row: R -> Row, page: PageRange,
    reconciler: Reconciler<R>, ghost start: nat, store: Stores.LogStore<Row>,
    ghost before: seq<Event<R>>)
    returns (requery: bool, ghost newStart: nat, ghost events: seq<Event<R>>)
    requires |log| < U64_MAX && page.low <= page.high <= |log|
    requires Linked(log, row, reconciler, start, store) && reconciler.bufferCapacity == BUFFER
    requires Shown(log, reconciler.View(), start) == Run(Subscribed(log), BUFFER, before)
    requires Paced(log, before) && reconciler.querying
    modifies reconciler, store
    ensures Linked(log, row, reconciler, newStart, store)
    ensures requery <==> reconciler.querying
    ensures events == before + [BeginQuery, Answer(page.low, page.high)] && Paced(log, events)
    ensures Shown(log, reconciler.View(), newStart) == Run(Subscribed(log), BUFFER, events)
    ensures Answers(events) == Answers(before) + [page]
  {
    RunExtends(Subscribed(log), BUFFER, before, BeginQuery);
    RunExtends(Subscribed(log), BUFFER, before + [BeginQuery], Answer(page.low, page.high));
    PaceExtends(log, before, BeginQuery);
    PaceExtends(log, before + [BeginQuery], Answer(page.low, page.high));
    events := before + [BeginQuery] + [Answer(page.low, page.high)];
    assert events == before + [BeginQuery, Answer(page.low, page.high)];
    requery, newStart := Query(log, row, page, reconciler, start, store);
  }

  /** Receive the next record, as the event it is in the run. */
  method FollowOne<R, Row(==)>(
    log: seq<R>, row: R -> Row, records: seq<nat>, ghost from: nat, next: nat, reconciler: Reconciler<R>,
    ghost start: nat, store: Stores.LogStore<Row>, ghost before: seq<Event<R>>, ghost events: seq<Event<R>>)
    returns (requery: bool)
    requires |log| < U64_MAX && from <= next < |records| && 1 <= records[next] <= |log|
    requires Linked(log, row, reconciler, start, store) && reconciler.bufferCapacity == BUFFER && !reconciler.querying
    requires Shown(log, reconciler.View(), start) == Run(Subscribed(log), BUFFER, events)
    requires Followed(log, before, records, from, next, events)
    modifies reconciler, store
    ensures Linked(log, row, reconciler, start, store)
    ensures requery <==> reconciler.querying
    ensures Shown(log, reconciler.View(), start) == Run(Subscribed(log), BUFFER, events + [Deliver(records[next])])
    ensures Followed(log, before, records, from, next + 1, events + [Deliver(records[next])])
  {
    RunExtends(Subscribed(log), BUFFER, events, Deliver(records[next]));
    FollowedOn(log, before, records, from, next, events);
    requery := Receive(log, row, records[next], reconciler, start, store);
  }

  /** Receive records until one asks for a requery or none is left. */
  method FollowRecords<R, Row(==)>(
    log: seq<R>, row: R -> Row, records: seq<nat>, from: nat, asked: bool, reconciler: Reconciler<R>, ghost start: nat,
    store: Stores.LogStore<Row>, ghost before: seq<Event<R>>)
    returns (requery: bool, next: nat, ghost events: seq<Event<R>>)
    requires |log| < U64_MAX && from <= |records|
    requires forall i | 0 <= i < |records| :: 1 <= records[i] <= |log|
    requires Linked(log, row, reconciler, start, store) && reconciler.bufferCapacity == BUFFER
    requires asked <==> reconciler.querying
    requires Shown(log, reconciler.View(), start) == Run(Subscribed(log), BUFFER, before)
    requires Paced(log, before)
    modifies reconciler, store
    ensures Linked(log, row, reconciler, start, store)
    ensures requery <==> reconciler.querying
    ensures from <= next <= |records| && (!requery ==> next == |records|)
    ensures Followed(log, before, records, from, next, events)
    ensures Shown(log, reconciler.View(), start) == Run(Subscribed(log), BUFFER, events)
  {
    requery, next, events := asked, from, before;
    assert before == before + Deliveries(records[from..from]);
    while next < |records| && !requery
      invariant from <= next <= |records|
      invariant Linked(log, row, reconciler, start, store)
      invariant requery <==> reconciler.querying
      invariant Shown(log, reconciler.View(), start) == Run(Subscribed(log), BUFFER, events)
      invariant Followed(log, before, records, from, next, events)
      decreases |records| - next
    {
      requery := FollowOne(log, row, records, from, next, reconciler, start, store, before, events);
      events := events + [Deliver(records[next])];
      next := next + 1;
    }
  }

  /** One page, and the records after it: the session grows by one span. */
  method Cycle<R, Row(==)>(
    log: seq<R>, row: R -> Row, pages: seq<PageRange>, records: seq<nat>, from: nat, page: nat,
    reconciler: Reconciler<R>, ghost start: nat, store: Stores.LogStore<Row>,
    ghost spans: seq<Span>, ghost before: seq<Event<R>>)
    returns (requery: bool, next: nat, ghost newStart: nat, ghost events: seq<Event<R>>)
    requires |log| < U64_MAX && page < |pages| && from <= |records|
    requires pages[page].low <= pages[page].high <= |log|
    requires forall i | 0 <= i < |records| :: 1 <= records[i] <= |log|
    requires |spans| == page && (if page == 0 then from == 0 else spans[page - 1].upto <= from)
    requires Linked(log, row, reconciler, start, store) && reconciler.bufferCapacity == BUFFER && reconciler.querying
    requires Shown(log, reconciler.View(), start) == Run(Subscribed(log), BUFFER, before)
    requires InSession(log, pages, records, spans, before)
    modifies reconciler, store
    ensures Linked(log, row, reconciler, newStart, store)
    ensures requery <==> reconciler.querying
    ensures from <= next <= |records| && (!requery ==> next == |records|)
    ensures Shown(log, reconciler.View(), newStart) == Run(Subscribed(log), BUFFER, events)
    ensures InSession(log, pages, records, spans + [Span(from, next)], events)
  {
    ghost var asked;
    requery, newStart, asked := AskAgain(log, row, pages[page], reconciler, start, store, before);
    requery, next, events := FollowRecords(log, row, records, from, requery, reconciler, newStart, store, asked);
    SessionContinues(log, pages, records, spans, before, asked, events, Span(from, next));
  }

  /** The feed until its session ends: `pages` are the answers to its queries
      and `records` the follow stream, each a part of `log` in any order. A
      requery discards any number of queued records. The session is the run that
      takes the pages in order, and after each one a span of the records; it asks
      again exactly when it has to, follows only while it need not, and ends out
      of pages, or live and out of records. Every moment of a longer session is
      the end of a shorter one, so the contract holds throughout. */
  method Feed<R, Row(==)>(
    log: seq<R>, row: R -> Row, pages: seq<PageRange>, records: seq<nat>, store: Stores.LogStore<Row>)
    returns (reconciler: Reconciler<R>, ghost start: nat, ghost events: seq<Event<R>>, ghost spans: seq<Span>)
    requires |log| < U64_MAX
    requires forall i | 0 <= i < |pages| :: pages[i].low <= pages[i].high <= |log|
    requires forall i | 0 <= i < |records| :: 1 <= records[i] <= |log|
    requires store.Valid() && store.rows == []
    modifies store
    ensures store.Valid()
    ensures ShowsTheLog(log, row, reconciler.View(), start, store.rows)
    ensures Shown(log, reconciler.View(), start) == Run(Subscribed(log), BUFFER, events)
    ensures InSession(log, pages, records, spans, events)
    ensures |spans| == |pages| || (!reconciler.querying && |spans| > 0 && spans[|spans| - 1].upto == |records|)
  {
    reconciler := new Reconciler(BUFFER);
    start, events, spans := 0, [], [];
    var p, r := 0, 0;
    while p < |pages|
      invariant p <= |pages| && r <= |records|
      invariant fresh(reconciler) && Linked(log, row, reconciler, start, store)
      invariant reconciler.bufferCapacity == BUFFER && reconciler.querying
      invariant Shown(log, reconciler.View(), start) == Run(Subscribed(log), BUFFER, events)
      invariant |spans| == p && (if p == 0 then r == 0 else spans[p - 1].upto <= r)
      invariant InSession(log, pages, records, spans, events)
    {
      var from := r;
      var requery;
      requery, r, start, events := Cycle(log, row, pages, records, from, p, reconciler, start, store, spans, events);
      spans := spans + [Span(from, r)];
      p := p + 1;
      if !requery {
        return;
      }
      var drained :| r <= drained <= |records|;
      r := drained;
    }
  }

  // ------------------------------------------------------------- sessions

  /** The records received after one page. */
  datatype Span = Span(from: nat, upto: nat)

  /** Spans of the follow stream from its start, one after the other. */
  ghost predicate InTurn(spans: seq<Span>, records: seq<nat>) {
    && (forall i | 0 <= i < |spans| :: spans[i].from <= spans[i].upto <= |records|)
    && (forall i | 1 <= i < |spans| :: spans[i - 1].upto <= spans[i].from)
    && (spans != [] ==> spans[0].from == 0)
  }

  function Deliveries<R>(records: seq<nat>): (events: seq<Event<R>>)
    ensures |events| == |records|
  {
    seq(|records|, i requires 0 <= i < |records| => Deliver(records[i]))
  }

  /** Each page answers a query, and its span of the records follows it. */
  ghost function Session<R>(pages: seq<PageRange>, records: seq<nat>, spans: seq<Span>): seq<Event<R>>
    requires |spans| <= |pages| && InTurn(spans, records)
  {
    if spans == [] then []
    else
      var n := |spans| - 1;
      Session(pages, records, spans[..n])
        + [BeginQuery, Answer(pages[n].low, pages[n].high)] + Deliveries(records[spans[n].from..spans[n].upto])
  }

  lemma {:induction false} SessionGrows<R>(pages: seq<PageRange>, records: seq<nat>, spans: seq<Span>, span: Span)
    requires |spans| < |pages| && InTurn(spans, records) && span.from <= span.upto <= |records|
    requires if spans == [] then span.from == 0 else spans[|spans| - 1].upto <= span.from
    ensures InTurn(spans + [span], records)
    ensures var page := pages[|spans|];
            Session<R>(pages, records, spans + [span]) ==
              Session<R>(pages, records, spans)
                + [BeginQuery, Answer(page.low, page.high)] + Deliveries(records[span.from..span.upto])
  {
    assert (spans + [span])[..|spans|] == spans;
  }

  /** `events` are the session over these pages and spans. */
  ghost predicate InSession<R>(
    log: seq<R>, pages: seq<PageRange>, records: seq<nat>, spans: seq<Span>, events: seq<Event<R>>)
    requires |log| < U64_MAX
  {
    && |spans| <= |pages| && InTurn(spans, records)
    && events == Session(pages, records, spans) && Paced(log, events)
    && Answers(events) == pages[..|spans|]
  }

  /** From `before` the records `from` to `next` were received, one by one. */
  ghost predicate Followed<R>(
    log: seq<R>, before: seq<Event<R>>, records: seq<nat>, from: nat, next: nat, events: seq<Event<R>>)
    requires |log| < U64_MAX && from <= next <= |records|
  {
    events == before + Deliveries(records[from..next]) && Paced(log, events) && Answers(events) == Answers(before)
  }

  lemma {:induction false} FollowedOn<R>(
    log: seq<R>, before: seq<Event<R>>, records: seq<nat>, from: nat, next: nat, events: seq<Event<R>>)
    requires |log| < U64_MAX && from <= next < |records| && Followed(log, before, records, from, next, events)
    requires !Run(Subscribed(log), BUFFER, events).client.querying
    ensures Followed(log, before, records, from, next + 1, events + [Deliver(records[next])])
  {
    RunExtends(Subscribed(log), BUFFER, events, Deliver(records[next]));
    PaceExtends(log, events, Deliver(records[next]));
    OneMoreDelivery(before, records, from, next);
  }

  lemma {:induction false} SessionContinues<R>(
    log: seq<R>, pages: seq<PageRange>, records: seq<nat>, spans: seq<Span>,
    before: seq<Event<R>>, asked: seq<Event<R>>, events: seq<Event<R>>, span: Span)
    requires |log| < U64_MAX && InSession(log, pages, records, spans, before) && |spans| < |pages|
    requires span.from <= span.upto <= |records|
    requires if spans == [] then span.from == 0 else spans[|spans| - 1].upto <= span.from
    requires asked == before + [BeginQuery, Answer(pages[|spans|].low, pages[|spans|].high)]
    requires Answers(asked) == Answers(before) + [pages[|spans|]]
    requires Followed(log, asked, records, span.from, span.upto, events)
    ensures InSession(log, pages, records, spans + [span], events)
  {
    SessionGrows<R>(pages, records, spans, span);
    assert pages[..|spans| + 1] == pages[..|spans|] + [pages[|spans|]];
  }

  lemma {:induction false} OneMoreDelivery<R>(before: seq<Event<R>>, records: seq<nat>, from: nat, next: nat)
    requires from <= next < |records|
    ensures before + Deliveries(records[from..next]) + [Deliver(records[next])]
         == before + Deliveries(records[from..next + 1])
  {
  }

  /** The client receives records only while it is live, and asks only while it
      has to. */
  ghost predicate Paced<R>(log: seq<R>, events: seq<Event<R>>)
    requires |log| < U64_MAX
  {
    events == [] ||
    var before, last := events[..|events| - 1], events[|events| - 1];
    var querying := Run(Subscribed(log), BUFFER, before).client.querying;
    Paced(log, before) && (last.Deliver? ==> !querying) && (last.BeginQuery? ==> querying)
  }

  lemma {:induction false} PaceExtends<R>(log: seq<R>, events: seq<Event<R>>, event: Event<R>)
    requires |log| < U64_MAX && Paced(log, events)
    requires event.Deliver? ==> !Run(Subscribed(log), BUFFER, events).client.querying
    requires event.BeginQuery? ==> Run(Subscribed(log), BUFFER, events).client.querying
    ensures Paced(log, events + [event])
  {
    assert (events + [event])[..|events|] == events;
  }

  function Subscribed<R>(log: seq<R>): Attachment<R> {
    Attachment(log, State(None, [], true), 0, [])
  }

  /** The pages a run was answered with, in order. */
  ghost function Answers<R>(events: seq<Event<R>>): seq<PageRange> {
    if events == [] then []
    else
      var last := events[|events| - 1];
      Answers(events[..|events| - 1]) + if last.Answer? then [PageRange(last.low, last.high)] else []
  }

  lemma {:induction false} RunExtends<R>(a: Attachment<R>, capacity: nat, events: seq<Event<R>>, event: Event<R>)
    requires 0 < capacity && |a.log| < U64_MAX
    ensures Run(a, capacity, events + [event]) == Apply(Run(a, capacity, events), capacity, event)
    ensures Answers(events + [event])
         == Answers(events) + if event.Answer? then [PageRange(event.low, event.high)] else []
    decreases |events|
  {
    assert (events + [event])[..|events|] == events;
    if events == [] {
    } else {
      assert (events + [event])[1..] == events[1..] + [event];
      RunExtends(Apply(a, capacity, events[0]), capacity, events[1..], event);
    }
  }

  /** The next record keeps the store at the cursor. */
  lemma AppendShows<R, Row>(
    log: seq<R>, row: R -> Row, client: State<R>, start: nat, sequence: Sequence, rows: seq<Row>)
    requires client.cursor.Some? && ShowsTheLog(log, row, client, start, rows)
    requires sequence == client.cursor.value + 1 <= |log| <= U64_MAX
    ensures var next := Stores.Last(rows + [row(log[sequence - 1])], Stores.LOG_CAPACITY);
            ShowsTheLog(log, row, client.(cursor := Some(sequence)), start, next)
  {
    AppendExtendsRows(log, row, start, sequence);
  }

  lemma AppendExtendsRows<R, Row>(log: seq<R>, row: R -> Row, start: nat, sequence: Sequence)
    requires start < sequence <= |log| <= U64_MAX
    ensures var before := Rows(Page(log, start, sequence - 1), row);
            && before + [row(log[sequence - 1])] == Rows(Page(log, start, sequence), row)
            && Stores.Last(Stores.Last(before, Stores.LOG_CAPACITY) + [row(log[sequence - 1])], Stores.LOG_CAPACITY)
               == Stores.Last(Rows(Page(log, start, sequence), row), Stores.LOG_CAPACITY)
  {
    var before := Rows(Page(log, start, sequence - 1), row);
    assert before + [row(log[sequence - 1])] == Rows(Page(log, start, sequence), row);
    Stores.LastOfLonger(before, row(log[sequence - 1]), Stores.LOG_CAPACITY);
  }
}

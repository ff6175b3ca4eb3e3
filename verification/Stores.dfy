/** The client's two bounded stores and their coalesced change notifications
    (cli/src/attach/state/logs.rs, cli/src/attach/state/runtimes.rs). */
module Stores {
  import opened Wrappers

  const REVISIONS: nat := 0x1_0000_0000_0000_0000
  const LOG_CAPACITY: nat := 2_000
  const RUNTIME_CAPACITY: nat := 4_096

  // ------------------------------------------------------- what a store keeps

  datatype Store<+Row> = Store(rows: seq<Row>, revision: nat, pending: bool)

  function Last<Row>(rows: seq<Row>, capacity: nat): seq<Row> {
    if |rows| <= capacity then rows else rows[|rows| - capacity..]
  }

  /** A wrapping 64-bit revision after `bumps` steps. */
  function Bumped(revision: nat, bumps: nat): nat {
    (revision + bumps) % REVISIONS
  }

  lemma BumpedAgain(revision: nat, bumps: nat)
    ensures Bumped(Bumped(revision, bumps), 1) == Bumped(revision, bumps + 1)
  {
  }

  /** Two revisions of one store are the same exactly when the changes between
      them are a multiple of 2^64; below the top a change is one step up. */
  lemma RevisionsRepeatExactly(revision: nat, early: nat, late: nat)
    requires revision < REVISIONS && early <= late
    ensures Bumped(revision, 0) == revision
    ensures Bumped(revision, 1) == if revision == REVISIONS - 1 then 0 else revision + 1
    ensures Bumped(revision, early) == Bumped(revision, late) <==> (late - early) % REVISIONS == 0
  {
    var a, b := revision + early, revision + late;
    assert a == REVISIONS * (a / REVISIONS) + a % REVISIONS && b == REVISIONS * (b / REVISIONS) + b % REVISIONS;
    var d := late - early;
    assert d == REVISIONS * (d / REVISIONS) + d % REVISIONS;
  }

  /** New contents after `bumps` revision steps, with the notification they owe. */
  function Changed<Row>(store: Store<Row>, rows: seq<Row>, bumps: nat): (Store<Row>, Option<nat>) {
    var revision := Bumped(store.revision, bumps);
    (Store(rows, revision, true), if store.pending then None else Some(revision))
  }

  function Recorded<Row>(store: Store<Row>, capacity: nat, row: Row): (Store<Row>, Option<nat>) {
    Changed(store, Last(store.rows + [row], capacity), 1)
  }

  // ------------------------------------------------------------ every history

  /** One call on a store; calls stamped with another epoch are `Foreign`. */
  datatype Call<+Row> = Record(row: Row) | Install(page: seq<Row>, bumps: nat) | Read | Foreign

  /** A store beside what a reader knows: every row since the last install, the
      rows at its last read, and the notifications since. */
  datatype History<+Row> = History(store: Store<Row>, since: seq<Row>, seen: seq<Row>, notified: nat)

  function Noted(notification: Option<nat>): nat {
    if notification.Some? then 1 else 0
  }

  /** `skipEqual`: the log store ignores a page equal to what it holds. */
  ghost function Advance<Row>(h: History<Row>, capacity: nat, skipEqual: bool, call: Call<Row>): History<Row> {
    match call
    case Record(row) =>
      var (store, note) := Recorded(h.store, capacity, row);
      History(store, h.since + [row], h.seen, h.notified + Noted(note))
    case Install(page, bumps) =>
      if skipEqual && page == h.store.rows then h.(since := page)
      else
        var (store, note) := Changed(h.store, Last(page, capacity), bumps);
        History(store, page, h.seen, h.notified + Noted(note))
    case Read => History(h.store.(pending := false), h.since, h.store.rows, 0)
    case Foreign => h
  }

  ghost function Replayed<Row>(h: History<Row>, capacity: nat, skipEqual: bool, calls: seq<Call<Row>>): History<Row>
    decreases |calls|
  {
    if calls == [] then h
    else Replayed(Advance(h, capacity, skipEqual, calls[0]), capacity, skipEqual, calls[1..])
  }

  /** The contents are the newest rows; a reader that has missed a change holds
      exactly one notification of it, and never more than one. */
  ghost predicate Announced<Row>(h: History<Row>, capacity: nat) {
    && h.store.rows == Last(h.since, capacity)
    && h.notified <= 1
    && (h.store.rows != h.seen ==> h.notified == 1)
    && (h.store.pending <==> h.notified == 1)
  }

  lemma LastOfLonger<Row>(rows: seq<Row>, row: Row, capacity: nat)
    ensures Last(Last(rows, capacity) + [row], capacity) == Last(rows + [row], capacity)
  {
  }

  lemma PageGrows<Row>(page: seq<Row>, i: nat)
    requires i < |page|
    ensures Last(Last(page[..i], LOG_CAPACITY) + [page[i]], LOG_CAPACITY) == Last(page[..i + 1], LOG_CAPACITY)
  {
    assert page[..i + 1] == page[..i] + [page[i]];
    LastOfLonger(page[..i], page[i], LOG_CAPACITY);
  }

  lemma {:induction false} NoLostOrRepeatedWakeup<Row>(
    h: History<Row>, capacity: nat, skipEqual: bool, calls: seq<Call<Row>>)
    requires Announced(h, capacity)
    ensures Announced(Replayed(h, capacity, skipEqual, calls), capacity)
    decreases |calls|
  {
    if calls == [] {
    } else {
      if calls[0].Record? {
        LastOfLonger(h.since, calls[0].row, capacity);
      }
      NoLostOrRepeatedWakeup(Advance(h, capacity, skipEqual, calls[0]), capacity, skipEqual, calls[1..]);
    }
  }

  function Untouched<Row>(): History<Row> {
    History(Store([], 0, false), [], [], 0)
  }

  lemma EveryHistoryIsAnnounced<Row>(capacity: nat, skipEqual: bool, calls: seq<Call<Row>>)
    ensures Announced(Replayed(Untouched<Row>(), capacity, skipEqual, calls), capacity)
  {
    NoLostOrRepeatedWakeup(Untouched<Row>(), capacity, skipEqual, calls);
  }

  // ------------------------------------------------------------------ windows

  function Filter<Row>(rows: seq<Row>, keep: Row -> bool): seq<Row> {
    if rows == [] then []
    else (if keep(rows[0]) then [rows[0]] else []) + Filter(rows[1..], keep)
  }

  /** Filtering keeps the matching rows, all of them, in their order. */
  lemma {:induction false} FilterSplits<Row>(a: seq<Row>, b: seq<Row>, keep: Row -> bool)
    ensures Filter(a + b, keep) == Filter(a, keep) + Filter(b, keep)
    ensures forall row :: row in Filter(a, keep) <==> row in a && keep(row)
  {
    if a == [] {
      assert a + b == b;
    } else {
      FilterSplits(a[1..], b, keep);
      assert (a + b)[1..] == a[1..] + b;
    }
  }

  function Reverse<Row>(rows: seq<Row>): (reversed: seq<Row>)
    ensures |reversed| == |rows|
    ensures forall i | 0 <= i < |rows| :: reversed[i] == rows[|rows| - 1 - i]
  {
    if rows == [] then [] else Reverse(rows[1..]) + [rows[0]]
  }

  function Smaller(a: nat, b: nat): nat {
    if a <= b then a else b
  }

  datatype Window<+Row> = Window(epoch: nat, revision: nat, rows: seq<Row>)

  function WindowRows<Row>(rows: seq<Row>, keep: Row -> bool, backward: bool, limit: nat, capacity: nat): seq<Row> {
    var kept := Filter(rows, keep);
    var ordered := if backward then Reverse(kept) else kept;
    ordered[..Smaller(|ordered|, Smaller(limit, capacity))]
  }

  /** A matching row is kept as often as it occurs. */
  lemma {:induction false} FilterKeepsCounts<Row>(rows: seq<Row>, keep: Row -> bool, row: Row)
    ensures multiset(Filter(rows, keep))[row] == if keep(row) then multiset(rows)[row] else 0
  {
    if rows != [] {
      assert rows == [rows[0]] + rows[1..];
      FilterKeepsCounts(rows[1..], keep, row);
    }
  }

  /** Reading forward yields the oldest matching rows, oldest first, and as many
      of them as were asked for, are kept and fit. */
  lemma ForwardWindowIsTheOldest<Row>(rows: seq<Row>, keep: Row -> bool, limit: nat, capacity: nat)
    ensures var window, kept := WindowRows(rows, keep, false, limit, capacity), Filter(rows, keep);
            && window <= kept && |window| <= limit && |window| <= capacity
            && (|window| == |kept| || |window| == limit || |window| == capacity)
  {
  }

  /** Reading backward yields the newest matching rows, newest first. */
  lemma BackwardWindowIsTheNewest<Row>(rows: seq<Row>, keep: Row -> bool, limit: nat, capacity: nat)
    ensures WindowRows(rows, keep, true, limit, capacity)
         == Reverse(Last(Filter(rows, keep), Smaller(limit, capacity)))
  {
    var kept, n := Filter(rows, keep), Smaller(limit, capacity);
    assert Reverse(kept)[..Smaller(|kept|, n)] == Reverse(Last(kept, n));
  }

  // ----------------------------------------------------------------- log rows

  class LogStore<Row(==)> {
    const epoch: nat
    var revision: nat
    var invalidationPending: bool
    var rows: seq<Row>

    function View(): Store<Row>
      reads this
    {
      Store(rows, revision, invalidationPending)
    }

    ghost predicate Valid()
      reads this
    {
      |rows| <= LOG_CAPACITY && revision < REVISIONS
    }

    constructor (epoch: nat)
      ensures Valid() && this.epoch == epoch && View() == Store([], 0, false)
    {
      this.epoch := epoch;
      revision := 0;
      invalidationPending := false;
      rows := [];
    }

    method Record(at: nat, row: Row) returns (note: Option<nat>)
      requires Valid()
      modifies this
      ensures Valid()
      ensures (View(), note) == if at == epoch then Recorded(old(View()), LOG_CAPACITY, row) else (old(View()), None)
    {
      if at != epoch {
        return None;
      }
      rows := rows + [row];
      while |rows| > LOG_CAPACITY
        invariant Last(rows, LOG_CAPACITY) == Last(old(rows) + [row], LOG_CAPACITY)
        invariant revision == old(revision) && invalidationPending == old(invalidationPending)
        decreases |rows|
      {
        rows := rows[1..];
      }
      revision := Bumped(revision, 1);
      if invalidationPending {
        return None;
      }
      invalidationPending := true;
      note := Some(revision);
    }

    method InstallSnapshot(at: nat, page: seq<Row>) returns (note: Option<nat>)
      requires Valid()
      modifies this
      ensures Valid()
      ensures (View(), note) ==
        if at != epoch || page == old(rows) then (old(View()), None)
        else Changed(old(View()), Last(page, LOG_CAPACITY), |page| + 1)
    {
      if at != epoch {
        return None;
      }
      if rows == page {
        return None;
      }
      var wasPending := invalidationPending;
      rows := [];
      for i := 0 to |page|
        invariant Valid()
        invariant rows == Last(page[..i], LOG_CAPACITY)
        invariant revision == Bumped(old(revision), i)
      {
        PageGrows(page, i);
        BumpedAgain(old(revision), i);
        var _ := Record(at, page[i]);
      }
      assert page[..|page|] == page;
      BumpedAgain(old(revision), |page|);
      revision := Bumped(revision, 1);
      invalidationPending := true;
      note := if wasPending then None else Some(revision);
    }

    method Read(at: nat, keep: Row -> bool, backward: bool, limit: nat) returns (window: Window<Row>)
      requires Valid()
      modifies this
      ensures Valid()
      ensures View() == old(View()).(pending := old(invalidationPending) && at != epoch)
      ensures window == Window(epoch, revision, WindowRows(rows, keep, backward, limit, LOG_CAPACITY))
    {
      if at == epoch {
        invalidationPending := false;
      }
      var kept := Filter(rows, keep);
      if backward {
        kept := Reverse(kept);
      }
      kept := kept[..Smaller(|kept|, Smaller(limit, LOG_CAPACITY))];
      window := Window(epoch, revision, kept);
    }
  }

  // ------------------------------------------------------------- runtime rows

  datatype RuntimeRow<+Sample> = RuntimeRow(sample: Sample, capacityEvictions: nat)

  function Stamped<Sample>(samples: seq<Sample>, evictions: nat): seq<RuntimeRow<Sample>> {
    seq(|samples|, i requires 0 <= i < |samples| => RuntimeRow(samples[i], evictions))
  }

  function Larger(a: nat, b: nat): nat {
    if a <= b then b else a
  }

  class RuntimeStore<Sample> {
    const epoch: nat
    var revision: nat
    var invalidationPending: bool
    var capacityEvictions: nat
    var rows: seq<RuntimeRow<Sample>>

    function View(): Store<RuntimeRow<Sample>>
      reads this
    {
      Store(rows, revision, invalidationPending)
    }

    /** Eviction counts never fall from one retained row to the next. */
    ghost predicate Valid()
      reads this
    {
      && |rows| <= RUNTIME_CAPACITY && revision < REVISIONS
      && (forall i | 0 <= i < |rows| :: rows[i].capacityEvictions <= capacityEvictions)
      && (forall i, j | 0 <= i <= j < |rows| :: rows[i].capacityEvictions <= rows[j].capacityEvictions)
    }

    constructor (epoch: nat)
      ensures Valid() && this.epoch == epoch && View() == Store([], 0, false) && capacityEvictions == 0
    {
      this.epoch := epoch;
      revision := 0;
      invalidationPending := false;
      capacityEvictions := 0;
      rows := [];
    }

    method Trim()
      modifies this
      ensures rows == Last(old(rows), RUNTIME_CAPACITY)
      ensures revision == old(revision) && invalidationPending == old(invalidationPending)
      ensures capacityEvictions == old(capacityEvictions)
    {
      while |rows| > RUNTIME_CAPACITY
        invariant Last(rows, RUNTIME_CAPACITY) == Last(old(rows), RUNTIME_CAPACITY)
        invariant revision == old(revision) && invalidationPending == old(invalidationPending)
        invariant capacityEvictions == old(capacityEvictions)
        decreases |rows|
      {
        rows := rows[1..];
      }
    }

    method InstallSnapshot(at: nat, samples: seq<Sample>, evictions: nat) returns (note: Option<nat>)
      requires Valid()
      modifies this
      ensures Valid()
      ensures (View(), note) ==
        if at != epoch then (old(View()), None)
        else Changed(old(View()), Last(Stamped(samples, evictions), RUNTIME_CAPACITY), 1)
      ensures capacityEvictions == if at != epoch then old(capacityEvictions) else evictions
    {
      if at != epoch {
        return None;
      }
      capacityEvictions := evictions;
      rows := Stamped(samples, capacityEvictions);
      Trim();
      revision := Bumped(revision, 1);
      if invalidationPending {
        return None;
      }
      invalidationPending := true;
      note := Some(revision);
    }

    method Record(at: nat, sample: Sample, evictions: nat) returns (note: Option<nat>)
      requires Valid()
      modifies this
      ensures Valid()
      ensures capacityEvictions ==
        if at != epoch then old(capacityEvictions) else Larger(old(capacityEvictions), evictions)
      ensures (View(), note) ==
        if at != epoch then (old(View()), None)
        else Recorded(old(View()), RUNTIME_CAPACITY, RuntimeRow(sample, Larger(old(capacityEvictions), evictions)))
    {
      if at != epoch {
        return None;
      }
      capacityEvictions := Larger(capacityEvictions, evictions);
      rows := rows + [RuntimeRow(sample, capacityEvictions)];
      Trim();
      revision := Bumped(revision, 1);
      if invalidationPending {
        return None;
      }
      invalidationPending := true;
      note := Some(revision);
    }

    method Read(at: nat, keep: RuntimeRow<Sample> -> bool, backward: bool, limit: nat)
      returns (window: Window<RuntimeRow<Sample>>)
      requires Valid()
      modifies this
      ensures Valid() && capacityEvictions == old(capacityEvictions)
      ensures View() == old(View()).(pending := old(invalidationPending) && at != epoch)
      ensures window == Window(epoch, revision, WindowRows(rows, keep, backward, limit, RUNTIME_CAPACITY))
    {
      if at == epoch {
        invalidationPending := false;
      }
      var kept := Filter(rows, keep);
      if backward {
        kept := Reverse(kept);
      }
      kept := kept[..Smaller(|kept|, Smaller(limit, RUNTIME_CAPACITY))];
      window := Window(epoch, revision, kept);
    }
  }
}

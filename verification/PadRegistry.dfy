/** The controller inventory (cli/src/joypad/registry.rs). Ids and names are
    UTF-8 byte strings, as the source's length limits count bytes. */
module PadRegistry {
  import opened Wrappers

  newtype byte = b: int | 0 <= b < 256

  type Bytes = seq<byte>

  const MAX_DEVICE_REGISTRY: nat := 64
  const MAX_SELECT_ID_BYTES: nat := 128
  const MAX_STABLE_ID_SUFFIX_BYTES: nat := 3

  // --------------------------------------------------------------- stable ids

  function Ascii(text: string): Bytes
    requires forall c | c in text :: c < '\U{80}'
  {
    seq(|text|, i requires 0 <= i < |text| => assert text[i] in text; (text[i] as int) as byte)
  }

  /** Not a continuation byte, or one of the two ends. */
  predicate IsCharBoundary(value: Bytes, end: nat) {
    end == 0 || end == |value| || (end < |value| && !(0x80 <= value[end] < 0xC0))
  }

  /** The last boundary at or before `end`. */
  function BoundaryBefore(value: Bytes, end: nat): (boundary: nat)
    requires end <= |value|
    ensures boundary <= end && IsCharBoundary(value, boundary)
    ensures forall k | boundary < k <= end :: !IsCharBoundary(value, k)
  {
    if IsCharBoundary(value, end) then end else BoundaryBefore(value, end - 1)
  }

  function Truncated(value: Bytes, max: nat): (prefix: Bytes)
    ensures |prefix| <= max && prefix <= value
    ensures |value| <= max ==> prefix == value
  {
    if |value| <= max then value else value[..BoundaryBefore(value, max)]
  }

  method TruncateUtf8(value: Bytes, max: nat) returns (prefix: Bytes)
    ensures prefix == Truncated(value, max)
    ensures IsCharBoundary(value, |prefix|)
    ensures forall k | |prefix| < k <= max && k <= |value| :: !IsCharBoundary(value, k)
  {
    if |value| <= max {
      return value;
    }
    var end: nat := max;
    while !IsCharBoundary(value, end)
      invariant end <= max
      invariant BoundaryBefore(value, end) == BoundaryBefore(value, max)
      decreases end
    {
      end := end - 1;
    }
    prefix := value[..end];
  }

  function HexDigit(n: int): byte
    requires 0 <= n < 16
  {
    if n < 10 then (48 + n) as byte else (87 + n) as byte
  }

  function Hex(bytes: Bytes): (text: Bytes)
    ensures |text| == 2 * |bytes|
  {
    if bytes == [] then [] else [HexDigit(bytes[0] as int / 16), HexDigit(bytes[0] as int % 16)] + Hex(bytes[1..])
  }

  predicate Anonymous(uuid: Bytes)
    requires |uuid| == 16
  {
    forall i | 0 <= i < 16 :: uuid[i] == 0
  }

  /** The longest prefix of a name that an identity holds. */
  function ShownName(name: Bytes): Bytes {
    Truncated(name, MAX_SELECT_ID_BYTES - 5 - MAX_STABLE_ID_SUFFIX_BYTES)
  }

  /** The hardware uuid in hexadecimal, or the name for an all-zero uuid. */
  function BaseDeviceId(uuid: Bytes, name: Bytes): (base: Bytes)
    requires |uuid| == 16
    ensures |base| <= MAX_SELECT_ID_BYTES - MAX_STABLE_ID_SUFFIX_BYTES
  {
    if Anonymous(uuid) then Ascii("name:") + ShownName(name) else Hex(uuid)
  }

  lemma {:induction false} HexIsInjective(a: Bytes, b: Bytes)
    requires Hex(a) == Hex(b)
    ensures a == b
  {
    if a != [] {
      var p, q := a[0] as int, b[0] as int;
      assert Hex(a)[0] == HexDigit(p / 16) && Hex(b)[0] == HexDigit(q / 16);
      assert Hex(a)[1] == HexDigit(p % 16) && Hex(b)[1] == HexDigit(q % 16);
      assert Hex(a)[2..] == Hex(a[1..]) && Hex(b)[2..] == Hex(b[1..]);
      HexIsInjective(a[1..], b[1..]);
      assert a == [a[0]] + a[1..] && b == [b[0]] + b[1..];
    }
  }

  lemma {:induction false} HexHasNoColon(bytes: Bytes)
    ensures forall b | b in Hex(bytes) :: 48 <= b <= 57 || 97 <= b <= 102
  {
    if bytes != [] {
      HexHasNoColon(bytes[1..]);
    }
  }

  /** Two pads have one identity exactly when they have the same hardware uuid, or
      both have none and their names agree as far as an identity holds them. */
  lemma IdentitiesAreExact(uuid: Bytes, name: Bytes, other: Bytes, otherName: Bytes)
    requires |uuid| == 16 && |other| == 16
    ensures BaseDeviceId(uuid, name) == BaseDeviceId(other, otherName) <==>
      if Anonymous(uuid) then Anonymous(other) && ShownName(name) == ShownName(otherName) else uuid == other
  {
    var a, b := BaseDeviceId(uuid, name), BaseDeviceId(other, otherName);
    HexHasNoColon(uuid);
    HexHasNoColon(other);
    var mark := Ascii("name:");
    assert |mark| == 5 && mark[4] == 58;
    if Anonymous(uuid) {
      assert a == mark + ShownName(name) && a[4] == 58 && a[5..] == ShownName(name);
    }
    if Anonymous(other) {
      assert b == mark + ShownName(otherName) && b[4] == 58 && b[5..] == ShownName(otherName);
    }
    if !Anonymous(uuid) {
      assert a == Hex(uuid) && a[4] in a;
      if !Anonymous(other) && a == b {
        HexIsInjective(uuid, other);
      }
    }
    if !Anonymous(other) {
      assert b == Hex(other) && b[4] in b;
    }
  }

  function Decimal(n: nat): (text: Bytes)
    ensures 1 <= |text| && (n < 100 ==> |text| <= 2)
  {
    if n < 10 then [(48 + n) as byte] else Decimal(n / 10) + [(48 + n % 10) as byte]
  }

  lemma {:induction false} DecimalIsInjective(n: nat, m: nat)
    requires Decimal(n) == Decimal(m)
    ensures n == m
  {
    var a, b := Decimal(n), Decimal(m);
    assert a[|a| - 1] == b[|b| - 1];
    if n >= 10 && m >= 10 {
      assert a[..|a| - 1] == Decimal(n / 10) && b[..|b| - 1] == Decimal(m / 10);
      DecimalIsInjective(n / 10, m / 10);
    }
  }

  function Candidate(base: Bytes, suffix: nat): Bytes {
    base + Ascii("#") + Decimal(suffix)
  }

  lemma CandidatesDiffer(base: Bytes, n: nat, m: nat)
    ensures Candidate(base, n) == Candidate(base, m) ==> n == m
    ensures Candidate(base, n) != base
  {
    if Candidate(base, n) == Candidate(base, m) {
      assert Candidate(base, n)[|base| + 1..] == Decimal(n);
      assert Candidate(base, m)[|base| + 1..] == Decimal(m);
      DecimalIsInjective(n, m);
    }
  }

  /** The base itself, or the first free `base#n`. Every candidate tried is a
      key of its own, so the suffix cannot pass one more than their number. */
  method AssignStableId(keys: set<Bytes>, base: Bytes) returns (id: Bytes, ghost suffix: nat)
    ensures id !in keys
    ensures if base !in keys then id == base else
      && id == Candidate(base, suffix) && 2 <= suffix <= |keys| + 1
      && forall n | 2 <= n < suffix :: Candidate(base, n) in keys
    ensures |keys| <= MAX_DEVICE_REGISTRY ==> |id| <= |base| + MAX_STABLE_ID_SUFFIX_BYTES
  {
    suffix := 1;
    if base !in keys {
      return base, 1;
    }
    var next := 2;
    ghost var tried := {base};
    AllCandidatesDiffer(base);
    while true
      invariant 2 <= next && |tried| == next - 1 && tried <= keys
      invariant forall n: nat | next <= n :: Candidate(base, n) !in tried
      invariant forall n | 2 <= n < next :: Candidate(base, n) in keys
      decreases |keys| + 2 - next
    {
      Fits(tried, keys);
      var candidate := Candidate(base, next);
      if candidate !in keys {
        return candidate, next;
      }
      tried := tried + {candidate};
      next := next + 1;
      Fits(tried, keys);
    }
  }

  lemma AllCandidatesDiffer(base: Bytes)
    ensures forall n: nat, m: nat :: Candidate(base, n) == Candidate(base, m) ==> n == m
    ensures forall n: nat :: Candidate(base, n) != base
  {
    forall n: nat, m: nat ensures Candidate(base, n) == Candidate(base, m) ==> n == m {
      CandidatesDiffer(base, n, m);
    }
  }

  lemma {:induction false} Fits<T>(part: set<T>, whole: set<T>)
    requires part <= whole
    ensures |part| <= |whole|
  {
    if part != {} {
      var x :| x in part;
      Fits(part - {x}, whole - {x});
    }
  }

  // ------------------------------------------------------------ recency queue

  datatype PadEntry = PadEntry(baseId: Bytes, handle: Option<nat>, name: Bytes, connected: bool, mapped: bool)

  type Entries = map<Bytes, PadEntry>

  predicate Distinct(order: seq<Bytes>) {
    forall i, j | 0 <= i < j < |order| :: order[i] != order[j]
  }

  function Without(order: seq<Bytes>, id: Bytes): (rest: seq<Bytes>)
    ensures forall k :: k in rest <==> k in order && k != id
    ensures Distinct(order) ==> Distinct(rest)
    ensures id !in order ==> rest == order
  {
    if order == [] then []
    else
      assert Distinct(order) ==> Distinct(order[1..]) && order[0] !in order[1..];
      if order[0] == id then Without(order[1..], id)
      else [order[0]] + Without(order[1..], id)
  }

  predicate Disposable(entries: Entries, selected: Option<Bytes>, id: Bytes) {
    selected != Some(id) && id in entries
  }

  /** The first id of `order` that may be dropped; only disconnected ones when
      `disconnected`. */
  function Oldest(order: seq<Bytes>, entries: Entries, selected: Option<Bytes>, disconnected: bool)
    : (found: Option<Bytes>)
    ensures found.Some? ==> found.value in order && Disposable(entries, selected, found.value)
    ensures found.Some? && disconnected ==> !entries[found.value].connected
    ensures found.None? ==>
      forall id | id in order && Disposable(entries, selected, id) :: disconnected && entries[id].connected
  {
    if order == [] then None
    else if Disposable(entries, selected, order[0]) && (disconnected ==> !entries[order[0]].connected) then
      Some(order[0])
    else Oldest(order[1..], entries, selected, disconnected)
  }

  /** The oldest disconnected pad, or else the oldest pad; never the selection. */
  function Victim(order: seq<Bytes>, entries: Entries, selected: Option<Bytes>): Option<Bytes> {
    var disconnected := Oldest(order, entries, selected, true);
    if disconnected.Some? then disconnected else Oldest(order, entries, selected, false)
  }

  ghost predicate Droppable(entries: Entries, selected: Option<Bytes>, id: Bytes) {
    Disposable(entries, selected, id) && !entries[id].connected
  }

  /** Eviction takes the oldest disconnected pad while there is one besides the
      selection, and a connected pad only when there is none. */
  lemma {:induction false} VictimIsTheOldestDisconnected(order: seq<Bytes>, entries: Entries, selected: Option<Bytes>)
    requires exists id :: id in order && Droppable(entries, selected, id)
    ensures Victim(order, entries, selected).Some?
    ensures exists i | 0 <= i < |order| ::
      && order[i] == Victim(order, entries, selected).value && Droppable(entries, selected, order[i])
      && forall j | 0 <= j < i :: !Droppable(entries, selected, order[j])
  {
    if Droppable(entries, selected, order[0]) {
      assert order[0] == Victim(order, entries, selected).value;
    } else {
      var id :| id in order && Droppable(entries, selected, id);
      assert id in order[1..];
      VictimIsTheOldestDisconnected(order[1..], entries, selected);
      var rest := order[1..];
      assert Victim(rest, entries, selected) == Victim(order, entries, selected);
      var i :| 0 <= i < |rest| && rest[i] == Victim(rest, entries, selected).value
        && Droppable(entries, selected, rest[i])
        && forall j | 0 <= j < i :: !Droppable(entries, selected, rest[j]);
      assert order[i + 1] == rest[i];
      forall j | 0 <= j < i + 1 ensures !Droppable(entries, selected, order[j]) {
        if j > 0 {
          assert order[j] == rest[j - 1];
        }
      }
    }
  }

  /** With every other pad connected it takes the oldest of those. */
  lemma {:induction false} VictimIsTheOldestOtherwise(
    order: seq<Bytes>, entries: Entries, selected: Option<Bytes>, i: nat)
    requires i < |order| && Disposable(entries, selected, order[i])
    requires forall j | 0 <= j < i :: !Disposable(entries, selected, order[j])
    requires forall id | id in order :: !Droppable(entries, selected, id)
    ensures Victim(order, entries, selected) == Some(order[i])
  {
    if i > 0 {
      assert forall j | 0 <= j < i - 1 :: order[1..][j] == order[j + 1];
      assert forall id | id in order[1..] :: id in order;
      assert !Disposable(entries, selected, order[0]);
      VictimIsTheOldestOtherwise(order[1..], entries, selected, i - 1);
    }
  }

  ghost predicate Lists(order: seq<Bytes>, entries: Entries) {
    Distinct(order) && forall id :: id in order <==> id in entries
  }

  lemma {:induction false} ListHasEveryKey(order: seq<Bytes>, keys: set<Bytes>)
    requires Distinct(order) && forall id :: id in order <==> id in keys
    ensures |order| == |keys|
  {
    if order == [] {
      assert keys == {};
    } else {
      var first, rest := order[0], order[1..];
      assert forall k | k in rest :: exists i | 0 < i < |order| :: order[i] == k;
      forall id ensures id in rest <==> id in keys - {first} {
        if id in keys - {first} {
          assert id in order;
        }
      }
      ListHasEveryKey(rest, keys - {first});
    }
  }

  /** Over the limit there is a pad to drop, and it is not the newest one. */
  lemma VictimIsNotTheNewest(order: seq<Bytes>, entries: Entries, selected: Option<Bytes>)
    requires Lists(order, entries) && |entries| > MAX_DEVICE_REGISTRY
    requires order[|order| - 1] in entries && entries[order[|order| - 1]].connected
    ensures Victim(order, entries, selected).Some?
    ensures Victim(order, entries, selected).value in entries
    ensures Victim(order, entries, selected).value != order[|order| - 1]
  {
    ListHasEveryKey(order, entries.Keys);
    assert order[0] in order && order[1] in order && order[0] != order[1];
    assert Disposable(entries, selected, order[0]) || Disposable(entries, selected, order[1]);
    if Oldest(order, entries, selected, true).None? {
      assert Oldest(order, entries, selected, false) ==
        if Disposable(entries, selected, order[0]) then Some(order[0])
        else Oldest(order[1..], entries, selected, false);
    }
  }

  lemma {:induction false} WithoutInFront(front: seq<Bytes>, back: seq<Bytes>, id: Bytes)
    requires id !in back
    ensures Without(front + back, id) == Without(front, id) + back
  {
    if front == [] {
      assert front + back == back;
    } else {
      assert (front + back)[1..] == front[1..] + back;
      WithoutInFront(front[1..], back, id);
    }
  }

  /** Something else than the selection stands before a connected tail: eviction
      leaves the tail alone. */
  lemma VictimIsInFront(front: seq<Bytes>, back: seq<Bytes>, entries: Entries, selected: Option<Bytes>)
    requires Lists(front + back, entries) && front != []
    requires |front| >= 2 || selected.None? || selected.value in back
    requires forall id | id in back :: id in entries && entries[id].connected
    ensures var victim := Victim(front + back, entries, selected);
            victim.Some? && victim.value in entries && victim.value !in back
  {
    var order := front + back;
    assert order[0] in order && order[0] !in back by {
      assert forall k | 0 <= k < |back| :: back[k] == order[|front| + k];
    }
    if !Disposable(entries, selected, order[0]) {
      assert order[1] in order && order[1] !in back by {
        assert forall k | 0 <= k < |back| :: back[k] == order[|front| + k];
      }
      assert Oldest(order, entries, selected, false) == Oldest(order[1..], entries, selected, false);
      assert order[1..][0] == order[1];
    }
  }

  // ------------------------------------------------------------- the registry

  /** Whether there is something new to publish, and whether authority fell. */
  datatype RegistryChange = RegistryChange(changed: bool, zeroRequired: bool)

  datatype Rejection = TooLong(id: Bytes) | NoMapping(name: Bytes) | NotConnected(id: Bytes) | Unknown(id: Bytes)
    | NothingSelected | SelectionNotReady(id: Bytes) | BackendUnavailable

  /** A pad is connected exactly while it has a handle, and no two pads share one. */
  ghost predicate HandlesAreExact(entries: Entries) {
    && (forall id | id in entries :: entries[id].handle.Some? <==> entries[id].connected)
    && (forall a, b | a in entries && b in entries ::
          entries[a].handle.Some? && entries[a].handle == entries[b].handle ==> a == b)
  }

  /** Every id can be selected, and so can every id derived from its base. */
  ghost predicate IdsFit(entries: Entries) {
    forall id | id in entries ::
      |id| <= MAX_SELECT_ID_BYTES && |entries[id].baseId| <= MAX_SELECT_ID_BYTES - MAX_STABLE_ID_SUFFIX_BYTES
  }

  /** What enforcing the limit leaves. */
  function Retained(order: seq<Bytes>, entries: Entries, selected: Option<Bytes>): (Entries, seq<Bytes>) {
    var victim := Victim(order, entries, selected);
    if |entries| <= MAX_DEVICE_REGISTRY || victim.None? then (entries, order)
    else (entries - {victim.value}, Without(order, victim.value))
  }

  function Newest(order: seq<Bytes>, id: Bytes): seq<Bytes> {
    Without(order, id) + [id]
  }

  /** `retain`: the ids that are still known. */
  function KnownOnly(order: seq<Bytes>, entries: Entries): (known: seq<Bytes>)
    ensures (forall id | id in order :: id in entries) ==> known == order
  {
    if order == [] then []
    else (if order[0] in entries then [order[0]] else []) + KnownOnly(order[1..], entries)
  }

  lemma NewestLists(order: seq<Bytes>, entries: Entries, id: Bytes)
    requires id in entries && (Lists(order, entries) || Lists(order, entries - {id}))
    ensures Lists(Newest(order, id), entries)
  {
  }

  lemma RetainedLists(order: seq<Bytes>, entries: Entries, selected: Option<Bytes>)
    requires Lists(order, entries)
    ensures Lists(Retained(order, entries, selected).1, Retained(order, entries, selected).0)
    ensures selected.Some? && selected.value in entries ==> selected.value in Retained(order, entries, selected).0
  {
  }

  /** A pad that may hold this handle, and whose id may be selected. */
  ghost predicate Admissible(entries: Entries, id: Bytes, entry: PadEntry) {
    && (entry.handle.Some? <==> entry.connected)
    && (forall k | k in entries && k != id && entry.handle.Some? :: entries[k].handle != entry.handle)
    && |id| <= MAX_SELECT_ID_BYTES && |entry.baseId| <= MAX_SELECT_ID_BYTES - MAX_STABLE_ID_SUFFIX_BYTES
  }

  lemma UpdateKeeps(entries: Entries, id: Bytes, entry: PadEntry)
    requires HandlesAreExact(entries) && IdsFit(entries) && Admissible(entries, id, entry)
    ensures HandlesAreExact(entries[id := entry]) && IdsFit(entries[id := entry])
  {
  }

  lemma NewestKeepsTail(front: seq<Bytes>, back: seq<Bytes>, id: Bytes)
    requires id !in back
    ensures Newest(front + back, id) == Without(front, id) + (back + [id])
  {
    WithoutInFront(front, back, id);
  }

  /** Enforcing the limit keeps a connected tail that leaves room for another pad,
      or that is full and has the selection in it. */
  lemma RetainedKeepsTail(front: seq<Bytes>, back: seq<Bytes>, entries: Entries, selected: Option<Bytes>)
    returns (kept: seq<Bytes>)
    requires Lists(front + back, entries) && |back| <= MAX_DEVICE_REGISTRY
    requires |back| < MAX_DEVICE_REGISTRY || selected.None? || selected.value in back
    requires forall id | id in back :: id in entries && entries[id].connected
    ensures Retained(front + back, entries, selected).1 == kept + back
    ensures forall id | id in back :: id in Retained(front + back, entries, selected).0
  {
    kept := front;
    if |entries| > MAX_DEVICE_REGISTRY {
      ListHasEveryKey(front + back, entries.Keys);
      VictimIsInFront(front, back, entries, selected);
      kept := Without(front, Victim(front + back, entries, selected).value);
      WithoutInFront(front, back, Victim(front + back, entries, selected).value);
    }
  }

  /** What the registry holds of every state, the selection aside. */
  ghost predicate Represents(order: seq<Bytes>, entries: Entries) {
    && |entries| <= MAX_DEVICE_REGISTRY
    && Lists(order, entries)
    && HandlesAreExact(entries) && IdsFit(entries)
  }

  /** Rewriting a known pad drops nothing and only moves it to the end. */
  lemma RewritingKeeps(order: seq<Bytes>, entries: Entries, id: Bytes, entry: PadEntry, selected: Option<Bytes>)
    requires Represents(order, entries) && id in entries && Admissible(entries, id, entry)
    ensures var same := entries[id := entry];
            && same.Keys == entries.Keys
            && Represents(Newest(order, id), same)
            && Retained(Newest(order, id), same, selected) == (same, Newest(order, id))
  {
    UpdateKeeps(entries, id, entry);
    SameSize(entries[id := entry], entries);
    NewestLists(order, entries[id := entry], id);
  }

  /** Adding a pad grows the registry by it. */
  lemma AdditionLists(order: seq<Bytes>, entries: Entries, id: Bytes, entry: PadEntry)
    requires Represents(order, entries) && id !in entries && Admissible(entries, id, entry)
    ensures var more := entries[id := entry];
            && |more| == |entries| + 1 && Newest(order, id) == order + [id]
            && Lists(order + [id], more) && HandlesAreExact(more) && IdsFit(more)
  {
    var more := entries[id := entry];
    assert more - {id} == entries;
    AdditionGrows(entries, id, entry);
    NewestLists(order, more, id);
    UpdateKeeps(entries, id, entry);
  }

  /** Adding a pad at the limit keeps it and the selection. */
  lemma InsertionKeeps(order: seq<Bytes>, entries: Entries, id: Bytes, entry: PadEntry, selected: Option<Bytes>)
    requires Represents(order, entries) && id !in entries && entry.connected && Admissible(entries, id, entry)
    ensures var (kept, newOrder) := Retained(order + [id], entries[id := entry], selected);
            && Represents(newOrder, kept)
            && id in kept && kept[id] == entry
            && (selected.Some? && selected.value in entries ==> selected.value in kept)
  {
    var more := entries[id := entry];
    AdditionLists(order, entries, id, entry);
    RetainedLists(order + [id], more, selected);
    if |more| > MAX_DEVICE_REGISTRY {
      VictimIsNotTheNewest(order + [id], more, selected);
      RemovalShrinks(more, Victim(order + [id], more, selected).value);
    }
  }

  class Registry {
    var entries: Entries
    var deviceOrder: seq<Bytes>
    var selected: Option<Bytes>
    var enabled: bool
    var lastError: Option<Rejection>

    ghost predicate Valid()
      reads this
    {
      && Represents(deviceOrder, entries)
      && (selected.Some? ==> selected.value in entries)
      && (enabled ==> selected.Some?)
    }

    predicate SelectionReady()
      reads this
    {
      && selected.Some? && selected.value in entries
      && entries[selected.value].connected && entries[selected.value].mapped
    }

    /** Manual authority is on only over a known, connected, mapped selection. */
    ghost predicate Safe()
      reads this
    {
      Valid() && (enabled ==> SelectionReady())
    }

    constructor (lastError: Option<Rejection>)
      ensures Safe() && entries == map[] && selected.None? && !enabled && this.lastError == lastError
    {
      entries, deviceOrder, selected, enabled := map[], [], None, false;
      this.lastError := lastError;
    }

    function SelectedHandle(): Option<nat>
      reads this
    {
      if selected.Some? && selected.value in entries then entries[selected.value].handle else None
    }

    // ----------------------------------------------------------- retention

    /** Drop one pad, or none when only the selection is left. */
    method DropVictim() returns (dropped: bool)
      requires MAX_DEVICE_REGISTRY < |entries| <= MAX_DEVICE_REGISTRY + 1
      modifies this`entries, this`deviceOrder
      ensures (entries, deviceOrder) == Retained(old(deviceOrder), old(entries), selected)
      ensures dropped ==> |entries| < |old(entries)|
    {
      var victim := Victim(deviceOrder, entries, selected);
      if victim.None? {
        return false;
      }
      RemovalShrinks(entries, victim.value);
      deviceOrder := Without(deviceOrder, victim.value);
      entries := entries - {victim.value};
      dropped := true;
    }

    method Prune()
      requires |entries| <= MAX_DEVICE_REGISTRY + 1 && Lists(deviceOrder, entries)
      modifies this`entries, this`deviceOrder
      ensures (entries, deviceOrder) == Retained(old(deviceOrder), old(entries), selected)
    {
      RetainedLists(deviceOrder, entries, selected);
      ghost var wanted := Retained(deviceOrder, entries, selected);
      while |entries| > MAX_DEVICE_REGISTRY
        invariant |entries| <= MAX_DEVICE_REGISTRY + 1 && Retained(deviceOrder, entries, selected) == wanted
        decreases |entries|
      {
        var dropped := DropVictim();
        if !dropped {
          break;
        }
      }
      deviceOrder := KnownOnly(deviceOrder, entries);
    }

    /** Make `id` the newest pad and enforce the limit. */
    method Touch(id: Bytes)
      requires id in entries && |entries| <= MAX_DEVICE_REGISTRY + 1
      requires Lists(Newest(deviceOrder, id), entries)
      modifies this`entries, this`deviceOrder
      ensures (entries, deviceOrder) == Retained(Newest(old(deviceOrder), id), old(entries), selected)
    {
      deviceOrder := Without(deviceOrder, id) + [id];
      Prune();
    }

    // ---------------------------------------------------------- observation

    /** Rewrite a known pad and make it the newest. */
    method Refresh(id: Bytes, entry: PadEntry)
      requires Valid() && id in entries && Admissible(entries, id, entry)
      modifies this`entries, this`deviceOrder
      ensures Valid()
      ensures entries == old(entries)[id := entry] && deviceOrder == Newest(old(deviceOrder), id)
    {
      RewritingKeeps(deviceOrder, entries, id, entry, selected);
      entries := entries[id := entry];
      Touch(id);
    }

    /** Add a pad under a fresh id; at the limit another one is dropped. */
    method Insert(id: Bytes, entry: PadEntry)
      requires Valid() && id !in entries && entry.connected && Admissible(entries, id, entry)
      modifies this`entries, this`deviceOrder
      ensures Valid()
      ensures id in entries && entries[id] == entry
      ensures (entries, deviceOrder) == Retained(old(deviceOrder) + [id], old(entries)[id := entry], selected)
    {
      ghost var order, before := deviceOrder, entries;
      assert |before[id := entry]| == |before| + 1 && Newest(order, id) == order + [id]
             && Lists(order + [id], before[id := entry]) by {
        AdditionLists(order, before, id, entry);
      }
      entries := entries[id := entry];
      Touch(id);
      InsertionKeeps(order, before, id, entry, selected);
    }

    /** Represent `handle`, under its known id when there is one. */
    method Observe(handle: nat, name: Bytes, uuid: Bytes, mapped: bool) returns (id: Bytes)
      requires Valid() && |uuid| == 16
      modifies this`entries, this`deviceOrder
      ensures Valid()
      ensures id in entries && entries[id].handle == Some(handle)
      ensures entries[id].mapped == mapped && entries[id].name == name
      ensures forall k | k in entries && k != id :: k in old(entries) && entries[k] == old(entries)[k]
      // A pad that has the handle, or the identity and no handle, keeps its id.
      ensures (exists k :: k in old(entries) && old(entries)[k].handle == Some(handle)) ==>
        id in old(entries) && old(entries)[id].handle == Some(handle)
      ensures id in old(entries) ==>
        && (old(entries)[id].handle == Some(handle)
            || (old(entries)[id].handle.None? && old(entries)[id].baseId == BaseDeviceId(uuid, name)))
        && entries == old(entries)[id := PadEntry(old(entries)[id].baseId, Some(handle), name, true, mapped)]
        && deviceOrder == Newest(old(deviceOrder), id)
      // A new one drops at most one pad, only at the limit, never the selection.
      ensures id !in old(entries) ==>
        && (forall k | k in old(entries) && old(entries)[k].baseId == BaseDeviceId(uuid, name) ::
              old(entries)[k].handle.Some?)
        && (entries, deviceOrder) == Retained(old(deviceOrder) + [id],
             old(entries)[id := PadEntry(BaseDeviceId(uuid, name), Some(handle), name, true, mapped)], selected)
    {
      if known :| known in entries && entries[known].handle == Some(handle) {
        Refresh(known, entries[known].(name := name, connected := true, mapped := mapped));
        return known;
      }
      var base := BaseDeviceId(uuid, name);
      if known :| known in entries && entries[known].baseId == base && entries[known].handle.None? {
        Refresh(known, entries[known].(handle := Some(handle), connected := true, mapped := mapped, name := name));
        return known;
      }
      ghost var suffix;
      assert |entries.Keys| == |entries|;
      id, suffix := AssignStableId(entries.Keys, base);
      Insert(id, PadEntry(base, Some(handle), name, true, mapped));
    }

    // -------------------------------------------------------------- authority

    method InvalidateSelection() returns (zero: bool)
      modifies this`selected, this`enabled
      ensures selected.None?
      ensures if old(selected).None? then !zero && enabled == old(enabled) else zero == old(enabled) && !enabled
    {
      if selected.None? {
        return false;
      }
      selected := None;
      zero := enabled;
      enabled := false;
    }

    method InvalidateUnreadySelection() returns (zero: bool)
      requires Valid()
      modifies this`selected, this`enabled
      ensures Safe() && (enabled <==> old(enabled) && old(SelectionReady()))
      ensures zero <==> old(enabled) && !enabled
      ensures selected == if old(SelectionReady()) then old(selected) else None
    {
      zero := false;
      if selected.Some? && !SelectionReady() {
        zero := InvalidateSelection();
      }
    }

    /** A ready selection stays. Otherwise the selection becomes this pad, if it
        can be used, and authority is off. */
    method Connected(id: Bytes) returns (change: RegistryChange)
      requires Valid()
      modifies this`selected, this`enabled
      ensures Safe() && (enabled <==> old(enabled) && old(SelectionReady()))
      ensures change == RegistryChange(true, old(enabled) && !enabled)
      ensures selected ==
        if old(SelectionReady()) then old(selected)
        else if id in entries && entries[id].mapped then Some(id) else None
    {
      var zero := InvalidateUnreadySelection();
      if selected.None? && id in entries && entries[id].mapped {
        selected := Some(id);
        enabled := false;
      }
      change := RegistryChange(true, zero);
    }

    method Unplug(id: Bytes)
      requires Valid() && id in entries
      modifies this`entries, this`deviceOrder
      ensures Valid()
      ensures entries == old(entries)[id := old(entries)[id].(handle := None, connected := false)]
      ensures selected.Some? && selected != Some(id) ==> SelectionReady() == old(SelectionReady())
    {
      Refresh(id, entries[id].(handle := None, connected := false));
    }

    method Disconnect(id: Bytes) returns (change: RegistryChange)
      requires Safe()
      modifies this
      ensures Safe() && lastError == old(lastError)
      ensures enabled <==> old(enabled) && old(selected) != Some(id)
      ensures change == RegistryChange(id in old(entries), old(enabled) && !enabled)
      ensures id in entries ==> !entries[id].connected
      ensures selected == if id in old(entries) && old(selected) == Some(id) then None else old(selected)
      ensures entries ==
        if id in old(entries) then old(entries)[id := old(entries)[id].(handle := None, connected := false)]
        else old(entries)
    {
      if id !in entries {
        return RegistryChange(false, false);
      }
      Unplug(id);
      var zero := false;
      if selected == Some(id) {
        zero := InvalidateSelection();
      }
      change := RegistryChange(true, zero);
    }

    method Disconnected(handle: nat) returns (change: RegistryChange)
      requires Safe()
      modifies this
      ensures Safe() && lastError == old(lastError)
      // The selection goes, and authority with it, exactly when it had the handle.
      ensures selected == if old(SelectedHandle()) == Some(handle) then None else old(selected)
      ensures enabled <==> old(enabled) && old(SelectedHandle()) != Some(handle)
      ensures entries.Keys == old(entries).Keys
      ensures forall k | k in entries && old(entries)[k].handle != Some(handle) :: entries[k] == old(entries)[k]
      ensures change.zeroRequired == (old(enabled) && !enabled)
      ensures change.changed <==> Held(old(entries), handle)
      ensures !Held(entries, handle)
      ensures forall h | h != handle :: Held(entries, h) <==> Held(old(entries), h)
      ensures !change.changed ==> entries == old(entries) && selected == old(selected) && enabled == old(enabled)
    {
      if id :| id in entries && entries[id].handle == Some(handle) {
        UnplugFrees(entries, id, handle);
        change := Disconnect(id);
        return;
      }
      change := RegistryChange(false, false);
    }

    /** The user asked for a device. A refusal says why, and drops the selection
        only when it was the one asked for. */
    method Select(id: Bytes) returns (zero: bool)
      requires Safe()
      modifies this`selected, this`enabled, this`lastError
      ensures Safe() && (enabled ==> old(enabled))
      ensures zero <==> old(enabled) && !enabled
      ensures lastError.None? <==>
        |id| <= MAX_SELECT_ID_BYTES && id in entries && entries[id].connected && entries[id].mapped
      // A refusal says what is wrong with the device.
      ensures lastError.Some? ==>
        match lastError.value
        case TooLong(shown) => |id| > MAX_SELECT_ID_BYTES && shown <= id && |shown| <= MAX_SELECT_ID_BYTES
        case Unknown(asked) => asked == id && id !in entries
        case NotConnected(asked) => asked == id && id in entries && !entries[id].connected
        case NoMapping(name) =>
          id in entries && entries[id].connected && !entries[id].mapped && entries[id].name == name
        case _ => false
      ensures selected ==
        if lastError.None? then Some(id)
        else if |id| <= MAX_SELECT_ID_BYTES && old(selected) == Some(id) then None
        else old(selected)
      ensures enabled <==> old(enabled) && selected == old(selected)
    {
      if |id| > MAX_SELECT_ID_BYTES {
        var shown := TruncateUtf8(id, MAX_SELECT_ID_BYTES);
        lastError := Some(TooLong(shown));
        return false;
      }
      var changes := selected != Some(id);
      var failure;
      if id in entries {
        if entries[id].connected && entries[id].mapped {
          zero := enabled && changes;
          selected := Some(id);
          if changes {
            enabled := false;
          }
          lastError := None;
          return;
        }
        failure := if entries[id].connected then NoMapping(entries[id].name) else NotConnected(id);
      } else {
        failure := Unknown(id);
      }
      zero := false;
      if !changes {
        zero := InvalidateSelection();
      }
      lastError := Some(failure);
    }

    method SetEnabled(on: bool) returns (zero: bool)
      requires Safe()
      modifies this`enabled, this`lastError
      ensures Safe()
      ensures enabled <==> on && SelectionReady()
      ensures zero <==> old(enabled) && !enabled
      ensures lastError.Some? <==> on && !enabled
      ensures lastError.Some? ==>
        match lastError.value
        case NothingSelected => selected.None?
        case SelectionNotReady(id) => selected == Some(id) && !SelectionReady()
        case _ => false
    {
      if !on {
        zero := enabled;
        enabled := false;
        lastError := None;
        return;
      }
      zero := false;
      if selected.None? {
        enabled := false;
        lastError := Some(NothingSelected);
        return;
      }
      if SelectionReady() {
        enabled := true;
        lastError := None;
      } else {
        enabled := false;
        lastError := Some(SelectionNotReady(selected.value));
      }
    }

    /** The pads outside `seen` lose their handles and stay known. */
    method RetainSeen(seen: set<Bytes>) returns (zero: bool)
      requires Valid()
      modifies this`entries, this`deviceOrder, this`selected, this`enabled
      ensures Valid() && (enabled <==> old(enabled) && selected == old(selected))
      ensures zero <==> old(enabled) && !enabled
      ensures entries == Unplugged(old(entries), seen) && deviceOrder == old(deviceOrder)
      ensures selected ==
        if old(selected).Some? && !entries[old(selected).value].connected then None else old(selected)
    {
      UnpluggedKeeps(entries, seen);
      entries := Unplugged(entries, seen);
      zero := false;
      if selected.Some? && selected.value in entries && !entries[selected.value].connected {
        zero := InvalidateSelection();
      }
      Prune();
    }

    /** Drop an unusable selection, else adopt `fallback`, authority off. */
    method ReconcileSelection(fallback: Option<nat>) returns (zero: bool)
      requires Valid()
      modifies this`selected, this`enabled
      ensures Safe() && (enabled <==> old(enabled) && old(SelectionReady()))
      ensures zero <==> old(enabled) && !enabled
      ensures old(SelectionReady()) ==> selected == old(selected)
      ensures selected != old(selected) && selected.Some? ==> fallback.Some? && SelectedHandle() == fallback
      ensures !old(SelectionReady()) && (fallback.None? || !Held(entries, fallback.value)) ==> selected.None?
      ensures !old(SelectionReady()) && fallback.Some? && Held(entries, fallback.value) ==>
        selected.Some? && SelectedHandle() == fallback && !enabled
    {
      zero := InvalidateUnreadySelection();
      if selected.None? && fallback.Some? {
        if id :| id in entries && entries[id].handle == fallback {
          selected := Some(id);
          enabled := false;
        }
      }
    }
  }

  /** Some pad has this handle. */
  ghost predicate Held(entries: Entries, handle: nat) {
    exists id :: id in entries && entries[id].handle == Some(handle)
  }

  lemma UnplugFrees(entries: Entries, id: Bytes, handle: nat)
    requires HandlesAreExact(entries) && id in entries && entries[id].handle == Some(handle)
    ensures var after := entries[id := entries[id].(handle := None, connected := false)];
            !Held(after, handle) && forall h | h != handle :: Held(after, h) <==> Held(entries, h)
  {
    var after := entries[id := entries[id].(handle := None, connected := false)];
    forall h | h != handle ensures Held(after, h) <==> Held(entries, h) {
      if k :| k in entries && entries[k].handle == Some(h) {
        assert after[k].handle == Some(h);
      }
    }
  }

  /** An observation gives its own handle to a pad and no other handle to any. */
  lemma ObservationHolds(before: Entries, after: Entries, id: Bytes, handle: nat)
    requires id in after && after[id].handle == Some(handle)
    requires forall k | k in after && k != id :: k in before && after[k] == before[k]
    ensures Held(after, handle)
    ensures forall h | Held(after, h) :: h == handle || Held(before, h)
  {
  }

  /** Every pad outside `seen` without its handle. */
  function Unplugged(entries: Entries, seen: set<Bytes>): Entries {
    map id | id in entries :: if id in seen then entries[id] else entries[id].(handle := None, connected := false)
  }

  lemma UnpluggedKeeps(entries: Entries, seen: set<Bytes>)
    requires HandlesAreExact(entries) && IdsFit(entries)
    ensures HandlesAreExact(Unplugged(entries, seen)) && IdsFit(Unplugged(entries, seen))
    ensures Unplugged(entries, seen).Keys == entries.Keys && |Unplugged(entries, seen)| == |entries|
  {
    SameSize(entries, Unplugged(entries, seen));
  }

  lemma RemovalShrinks(entries: Entries, id: Bytes)
    requires id in entries
    ensures |entries - {id}| == |entries| - 1
  {
    assert (entries - {id}).Keys == entries.Keys - {id};
    assert |(entries - {id}).Keys| == |entries - {id}|;
  }

  lemma AdditionGrows(entries: Entries, id: Bytes, entry: PadEntry)
    requires id !in entries
    ensures |entries[id := entry]| == |entries| + 1
  {
    assert entries[id := entry].Keys == entries.Keys + {id};
    assert |entries[id := entry].Keys| == |entries[id := entry]|;
  }

  lemma SameSize(a: Entries, b: Entries)
    requires a.Keys == b.Keys
    ensures |a| == |b|
  {
    assert |a.Keys| == |a| && |b.Keys| == |b|;
  }
}

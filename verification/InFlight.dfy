/**
 The in-flight dedup registry (src/arbitrage/in_flight.rs): at most one open intent per route. The
 registry is an object; its operations are one relation, and the main result is about whole runs.
 Clock reads are parameters; a sweep reads the clock once per entry.
 */
module InFlight {
  import opened Wrappers

  const U64_MAX: nat := 0xFFFF_FFFF_FFFF_FFFF
  const TTL_GRACE_MS: nat := 5_000

  type U64 = n: nat | n <= U64_MAX

  datatype InFlightArbKey = InFlightArbKey(mint: string, buyDex: string, sellDex: string, buyPool: string, sellPool: string)

  datatype InFlightArbEntry = InFlightArbEntry(intentId: string, publishedAt: nat, ttlMs: U64)

  datatype ExecutionStatus = Sent | Confirmed | Failed | Timeout

  datatype ExecutionResult = ExecutionResult(intentId: string, source: string, status: ExecutionStatus)

  type Entries = map<InFlightArbKey, InFlightArbEntry>

  predicate IsTerminal(status: ExecutionStatus) {
    status.Confirmed? || status.Failed? || status.Timeout?
  }

  function SaturatingAdd(a: U64, b: U64): U64 {
    if a + b <= U64_MAX then a + b else U64_MAX
  }

  function Elapsed(since: nat, now: nat): nat {
    if now >= since then now - since else 0
  }

  predicate Stale(e: InFlightArbEntry, now: nat) {
    Elapsed(e.publishedAt, now) >= SaturatingAdd(e.ttlMs, TTL_GRACE_MS)
  }

  // ----- The registry as a relation on its entries -----

  datatype Event =
    | Register(key: InFlightArbKey, intentId: string, ttlMs: U64, now: nat)
    | Result(exec: ExecutionResult)
    | Sweep(clock: InFlightArbKey -> nat)

  ghost predicate HasIntent(entries: Entries, k: InFlightArbKey, intentId: string) {
    k in entries && entries[k].intentId == intentId
  }

  /** Clearing removes one route of the intent, whichever the hash map yields first. */
  ghost predicate Cleared(before: Entries, intentId: string, after: Entries) {
    || (exists k :: HasIntent(before, k, intentId) && after == before - {k})
    || ((forall k :: !HasIntent(before, k, intentId)) && after == before)
  }

  ghost predicate Next(before: Entries, ev: Event, after: Entries) {
    match ev
    case Register(key, intentId, ttlMs, now) => after == before[key := InFlightArbEntry(intentId, now, ttlMs)]
    case Result(exec) =>
      if exec.source == "arb-strategy" && IsTerminal(exec.status) then Cleared(before, exec.intentId, after)
      else after == before
    case Sweep(clock) => after == map k | k in before && !Stale(before[k], clock(k)) :: before[k]
  }

  /** `states` is what a new registry goes through under `events`. */
  ghost predicate IsRun(events: seq<Event>, states: seq<Entries>) {
    && |states| == |events| + 1 && states[0] == map[]
    && (forall i :: 0 <= i < |events| ==> Next(states[i], events[i], states[i + 1]))
  }

  ghost predicate UniqueIds(events: seq<Event>) {
    forall i, j :: 0 <= i < j < |events| && events[i].Register? && events[j].Register? ==>
      events[i].intentId != events[j].intentId
  }

  // ----- What the registry promises -----

  function EntryOf(ev: Event): InFlightArbEntry
    requires ev.Register?
  {
    InFlightArbEntry(ev.intentId, ev.now, ev.ttlMs)
  }

  /** The events that end the block a registration set up. */
  predicate Releases(reg: Event, ev: Event)
    requires reg.Register?
  {
    match ev
    case Register(key, _, _, _) => key == reg.key
    case Result(exec) =>
      && exec.source == "arb-strategy" && exec.intentId == reg.intentId
      && (exec.status == Confirmed || exec.status == Failed || exec.status == Timeout)
    case Sweep(clock) =>
      clock(reg.key) >= reg.now + if reg.ttlMs + 5_000 < 0x1_0000_0000_0000_0000 then reg.ttlMs + 5_000 else 0xFFFF_FFFF_FFFF_FFFF
  }

  /** The registration at `i` still blocks `key` after the first `n` events. */
  ghost predicate Holds(events: seq<Event>, n: nat, i: int, key: InFlightArbKey) {
    && 0 <= i < n <= |events| && events[i].Register? && events[i].key == key
    && (forall j :: i < j < n ==> !Releases(events[i], events[j]))
  }

  ghost predicate Explained(events: seq<Event>, n: nat, entries: Entries) {
    forall key :: ExplainedAt(events, n, entries, key)
  }

  ghost predicate ExplainedAt(events: seq<Event>, n: nat, entries: Entries, key: InFlightArbKey) {
    && (forall i :: Holds(events, n, i, key) ==> key in entries && entries[key] == EntryOf(events[i]))
    && (key in entries ==> exists i :: Holds(events, n, i, key))
  }

  lemma HoldsLater(events: seq<Event>, n: nat, i: int, key: InFlightArbKey)
    requires n < |events|
    ensures Holds(events, n + 1, i, key) <==>
            (i < n && Holds(events, n, i, key) && !Releases(events[i], events[n]))
            || (i == n && events[n].Register? && events[n].key == key)
  {
  }

  predicate TerminalResult(ev: Event) {
    ev.Result? && ev.exec.source == "arb-strategy"
    && (ev.exec.status == Confirmed || ev.exec.status == Failed || ev.exec.status == Timeout)
  }

  /** Whenever a terminal arb-strategy result arrives, at most one route is held by its intent. */
  ghost predicate OneHolder(events: seq<Event>) {
    forall n: nat :: n < |events| && TerminalResult(events[n]) ==> HeldOnce(events, n, events[n].exec.intentId)
  }

  ghost predicate HeldOnce(events: seq<Event>, n: nat, id: string) {
    forall i, j, k, k' :: Holds(events, n, i, k) && Holds(events, n, j, k') && events[i].intentId == id && events[j].intentId == id ==>
      k == k'
  }

  /** A terminal result takes exactly the routes of its intent out of the registry. */
  lemma ClearedExactly(events: seq<Event>, n: nat, before: Entries, after: Entries, id: string, key: InFlightArbKey)
    requires HeldOnce(events, n, id) && Explained(events, n, before) && Cleared(before, id, after)
    ensures key in after <==> key in before && before[key].intentId != id
    ensures key in after ==> after[key] == before[key]
  {
    if HasIntent(before, key, id) {
      var k :| HasIntent(before, k, id) && after == before - {k};
      assert ExplainedAt(events, n, before, k) && ExplainedAt(events, n, before, key);
      var i :| Holds(events, n, i, k);
      var j :| Holds(events, n, j, key);
    }
  }

  lemma StepExplained(events: seq<Event>, n: nat, before: Entries, after: Entries, key: InFlightArbKey)
    requires n < |events| && Explained(events, n, before) && Next(before, events[n], after)
    requires TerminalResult(events[n]) ==> HeldOnce(events, n, events[n].exec.intentId)
    ensures ExplainedAt(events, n + 1, after, key)
  {
    assert ExplainedAt(events, n, before, key);
    if TerminalResult(events[n]) {
      ClearedExactly(events, n, before, after, events[n].exec.intentId, key);
    }
    forall i | Holds(events, n + 1, i, key)
      ensures key in after && after[key] == EntryOf(events[i])
    {
      HoldsLater(events, n, i, key);
    }
    if key in after {
      if events[n].Register? && events[n].key == key {
        HoldsLater(events, n, n, key);
      } else {
        var i :| Holds(events, n, i, key);
        HoldsLater(events, n, i, key);
      }
    }
  }

  lemma {:induction false} RunExplained(events: seq<Event>, states: seq<Entries>, n: nat)
    requires IsRun(events, states) && OneHolder(events) && n <= |events|
    ensures Explained(events, n, states[n])
  {
    if n == 0 {
      assert forall key :: ExplainedAt(events, 0, states[0], key);
    } else {
      RunExplained(events, states, n - 1);
      assert Next(states[n - 1], events[n - 1], states[n - 1 + 1]);
      forall key
        ensures ExplainedAt(events, n, states[n], key)
      {
        StepExplained(events, n - 1, states[n - 1], states[n], key);
      }
    }
  }

  /** If two routes are held by the intent of a terminal result, one of them stays in the registry unexplained. */
  lemma SecondRouteStays(events: seq<Event>, states: seq<Entries>, n: nat, i: int, j: int, k: InFlightArbKey, k': InFlightArbKey)
    requires IsRun(events, states) && n < |events| && TerminalResult(events[n]) && Explained(events, n, states[n])
    requires Holds(events, n, i, k) && Holds(events, n, j, k') && k != k'
    requires events[i].intentId == events[j].intentId == events[n].exec.intentId
    ensures !Explained(events, n + 1, states[n + 1])
  {
    var id, before, after := events[n].exec.intentId, states[n], states[n + 1];
    assert Next(before, events[n], after);
    assert ExplainedAt(events, n, before, k) && ExplainedAt(events, n, before, k');
    assert HasIntent(before, k, id) && HasIntent(before, k', id);
    var gone :| HasIntent(before, gone, id) && after == before - {gone};
    var left := if gone == k then k' else k;
    assert left in after && after[left].intentId == id;
    forall x | Holds(events, n + 1, x, left)
      ensures after[left] != EntryOf(events[x])
    {
      HoldsLater(events, n, x, left);
    }
    assert !ExplainedAt(events, n + 1, after, left);
  }

  /**
   Main result, for every run: at every point of it the registry holds exactly the registrations not yet
   ended by a later registration of the route, a terminal arb-strategy result of the intent or a sweep at or
   after ttl + 5 s, if and only if no terminal result ever finds two routes held by its intent.
   */
  lemma ExactIffOneHolder(events: seq<Event>, states: seq<Entries>)
    requires IsRun(events, states)
    ensures OneHolder(events) <==> forall n: nat :: n <= |events| ==> Explained(events, n, states[n])
  {
    hide Explained;
    if OneHolder(events) {
      forall n: nat | n <= |events|
        ensures Explained(events, n, states[n])
      {
        RunExplained(events, states, n);
      }
    } else {
      var n: nat :| n < |events| && TerminalResult(events[n]) && !HeldOnce(events, n, events[n].exec.intentId);
      var i, j, k, k' :| Holds(events, n, i, k) && Holds(events, n, j, k') && events[i].intentId == events[n].exec.intentId
                         && events[j].intentId == events[n].exec.intentId && k != k';
      if Explained(events, n, states[n]) {
        SecondRouteStays(events, states, n, i, j, k, k');
      }
    }
  }

  /** A route is blocked by an intent exactly if a registration of it still holds. */
  lemma BlockedExactly(events: seq<Event>, states: seq<Entries>, n: nat, key: InFlightArbKey, id: string)
    requires IsRun(events, states) && OneHolder(events) && n <= |events|
    ensures (key in states[n] && states[n][key].intentId == id)
            <==> exists i :: Holds(events, n, i, key) && events[i].intentId == id
  {
    RunExplained(events, states, n);
    assert ExplainedAt(events, n, states[n], key);
  }

  /** Unique intent ids are enough. */
  lemma UniqueIdsHoldOnce(events: seq<Event>)
    requires UniqueIds(events)
    ensures OneHolder(events)
  {
    forall n: nat | n < |events| && TerminalResult(events[n])
      ensures HeldOnce(events, n, events[n].exec.intentId)
    {
      var id := events[n].exec.intentId;
      forall i, j, k, k' | Holds(events, n, i, k) && Holds(events, n, j, k') && events[i].intentId == id && events[j].intentId == id
        ensures k == k'
      {
        assert i == j;
      }
    }
  }

  /** Non-terminal results, results of other sources and results of superseded intents never unblock a route. */
  lemma UnrelatedResultsKeepBlock(before: Entries, exec: ExecutionResult, after: Entries, key: InFlightArbKey)
    requires Next(before, Result(exec), after) && key in before
    requires exec.source != "arb-strategy" || !IsTerminal(exec.status) || exec.intentId != before[key].intentId
    ensures key in after && after[key] == before[key]
  {
  }

  /** Two routes under one id, one terminal result: one of them stays blocked by a settled intent. */
  lemma SharedIdLeavesRouteBlocked(a: InFlightArbKey, b: InFlightArbKey, id: string)
    requires a != b
    ensures var entry := InFlightArbEntry(id, 0, 0);
            var events := [Register(a, id, 0, 0), Register(b, id, 0, 0),
                           Result(ExecutionResult(id, "arb-strategy", Confirmed))];
            var states := [map[], map[a := entry], map[a := entry, b := entry], map[b := entry]];
            IsRun(events, states) && b in states[3] && states[3][b].intentId == id
            && !exists i :: Holds(events, 3, i, b) && events[i].intentId == id
  {
    var entry := InFlightArbEntry(id, 0, 0);
    var exec := ExecutionResult(id, "arb-strategy", Confirmed);
    var events := [Register(a, id, 0, 0), Register(b, id, 0, 0), Result(exec)];
    var both: Entries := map[a := entry, b := entry];
    assert HasIntent(both, a, id) && map[b := entry] == both - {a};
    assert Cleared(both, id, map[b := entry]);
    assert Next(both, events[2], map[b := entry]);
    assert forall reg: Event :: reg.Register? && reg.intentId == id ==> Releases(reg, Result(exec));
  }

  // ----- The object -----

  /** Ghost `history` and `past` record what happened to the registry since it was made. */
  class InFlightArbRegistry {
    var entries: Entries
    ghost var history: seq<Event>
    ghost var past: seq<Entries>

    ghost predicate Valid()
      reads this
    {
      IsRun(history, past) && entries == past[|history|]
    }

    constructor ()
      ensures Valid() && history == [] && entries == map[]
    {
      entries, history, past := map[], [], [map[]];
    }

    /**
     The intent a route is waiting for: if no terminal result ever found two routes held by its intent, an
     answer names the registration that still holds, and no answer means that none does.
     */
    method BlockingIntentId(key: InFlightArbKey) returns (id: Option<string>)
      requires Valid()
      ensures id.Some? <==> key in entries
      ensures OneHolder(history) ==>
                && (id.Some? <==> exists i :: Holds(history, |history|, i, key))
                && (forall i :: Holds(history, |history|, i, key) ==> id == Some(history[i].intentId))
    {
      id := if key in entries then Some(entries[key].intentId) else None;
      if OneHolder(history) {
        RunExplained(history, past, |history|);
        assert ExplainedAt(history, |history|, entries, key);
      }
    }

    /** Appends an event that led to the current entries. */
    ghost method Record(ev: Event)
      requires IsRun(history, past) && Next(past[|history|], ev, entries)
      modifies this`history, this`past
      ensures Valid() && history == old(history) + [ev]
    {
      history, past := history + [ev], past + [entries];
      forall i | 0 <= i < |history|
        ensures Next(past[i], history[i], past[i + 1])
      {
        if i < |old(history)| {
          assert Next(old(past)[i], old(history)[i], old(past)[i + 1]);
        }
      }
    }

    method Register(key: InFlightArbKey, intentId: string, ttlMs: U64, now: nat)
      requires Valid()
      modifies this
      ensures Valid() && history == old(history) + [Event.Register(key, intentId, ttlMs, now)]
      ensures Next(old(entries), Event.Register(key, intentId, ttlMs, now), entries)
    {
      entries := entries[key := InFlightArbEntry(intentId, now, ttlMs)];
      Record(Event.Register(key, intentId, ttlMs, now));
    }

    method ClearByIntentId(intentId: string) returns (found: bool)
      modifies this`entries
      ensures Cleared(old(entries), intentId, entries)
      ensures found <==> exists k :: HasIntent(old(entries), k, intentId)
    {
      if exists k :: k in entries && entries[k].intentId == intentId {
        var k :| k in entries && entries[k].intentId == intentId;
        assert HasIntent(entries, k, intentId);
        entries := entries - {k};
        return true;
      }
      assert forall k :: !HasIntent(entries, k, intentId);
      return false;
    }

    method ExpireStale(clock: InFlightArbKey -> nat)
      requires Valid()
      modifies this
      ensures Valid() && history == old(history) + [Sweep(clock)]
      ensures Next(old(entries), Sweep(clock), entries)
    {
      entries := map k | k in entries && !Stale(entries[k], clock(k)) :: entries[k];
      Record(Sweep(clock));
    }

    method HandleExecutionResult(exec: ExecutionResult)
      requires Valid()
      modifies this
      ensures Valid() && history == old(history) + [Result(exec)]
      ensures Next(old(entries), Result(exec), entries)
    {
      if exec.source == "arb-strategy" && IsTerminal(exec.status) {
        var _ := ClearByIntentId(exec.intentId);
      }
      Record(Result(exec));
    }
  }
}

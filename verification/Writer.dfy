/**
 The writer service: three consumer loops that check whether an event ID was already processed,
 insert a row, and mark the ID, each as separate steps that interleave with the other loops, with
 redeliveries, with failing inserts and with the clearing of the processed-ID map.
 */
module Writer {
  /** Where a consumer is in its handler. */
  datatype Pc =
    | Idle
    | Checked(id: string)   // found unprocessed, row not yet inserted
    | Inserted(id: string)  // row inserted, ID not yet marked

  const CLEAR_ABOVE: nat := 10000

  datatype State = State(processed: set<string>, consumers: seq<Pc>, rows: map<string, nat>, clears: nat)

  const START := State({}, [Idle, Idle, Idle], map[], 0)

  function Rows(s: State, id: string): nat {
    if id in s.rows then s.rows[id] else 0
  }

  datatype Event =
    | Delivered(consumer: nat, id: string)                // check for a delivery or redelivery
    | InsertTried(consumer: nat, parsed: bool, ok: bool)  // decode the data and insert
    | MarkDone(consumer: nat)
    | CleanupRan

  predicate Enabled(s: State, e: Event) {
    match e
    case Delivered(c, _) => c < |s.consumers| && s.consumers[c].Idle?
    case InsertTried(c, _, _) => c < |s.consumers| && s.consumers[c].Checked?
    case MarkDone(c) => c < |s.consumers| && s.consumers[c].Inserted?
    case CleanupRan => true
  }

  function Step(s: State, e: Event): State
    requires Enabled(s, e)
  {
    match e
    case Delivered(c, id) =>
      if id in s.processed then s else s.(consumers := s.consumers[c := Checked(id)])
    case InsertTried(c, parsed, ok) =>
      var id := s.consumers[c].id;
      if !parsed || !ok then s.(consumers := s.consumers[c := Idle])
      else s.(consumers := s.consumers[c := Inserted(id)], rows := s.rows[id := Rows(s, id) + 1])
    case MarkDone(c) =>
      s.(consumers := s.consumers[c := Idle], processed := s.processed + {s.consumers[c].id})
    case CleanupRan =>
      if |s.processed| > CLEAR_ABOVE then s.(processed := {}, clears := s.clears + 1) else s
  }

  /** A delivery is taken up exactly when its ID is not marked; nothing else changes. */
  lemma DeliveryTakenUp(s: State, c: nat, id: string)
    requires Enabled(s, Delivered(c, id))
    ensures var t := Step(s, Delivered(c, id));
            && t.rows == s.rows && t.processed == s.processed && t.clears == s.clears && |t.consumers| == |s.consumers|
            && t.consumers[c] == (if id in s.processed then Idle else Checked(id))
            && forall d :: 0 <= d < |s.consumers| && d != c ==> t.consumers[d] == s.consumers[d]
  {
  }

  /** Data that cannot be decoded and a failed insert leave no trace, so that a redelivery is taken up again. */
  lemma FailureLeavesNoTrace(s: State, c: nat, parsed: bool, ok: bool, id: string)
    requires Enabled(s, InsertTried(c, parsed, ok)) && s.consumers[c] == Checked(id) && !(parsed && ok)
    ensures var t := Step(s, InsertTried(c, parsed, ok));
            t.rows == s.rows && t.processed == s.processed && t.clears == s.clears && t.consumers[c] == Idle
    ensures id !in s.processed ==> Step(Step(s, InsertTried(c, parsed, ok)), Delivered(c, id)).consumers[c] == Checked(id)
  {
  }

  /** An unmarked ID that is delivered and inserted gets one more row and is marked. */
  lemma SuccessStoresOnce(s: State, c: nat, id: string)
    requires Enabled(s, Delivered(c, id)) && id !in s.processed
    ensures var t := Step(Step(Step(s, Delivered(c, id)), InsertTried(c, true, true)), MarkDone(c));
            && t.processed == s.processed + {id} && t.clears == s.clears && t.consumers == s.consumers
            && Rows(t, id) == Rows(s, id) + 1 && forall other :: other != id ==> Rows(t, other) == Rows(s, other)
  {
  }

  /** The map is emptied, and counted as cleared, exactly above 10000 entries; nothing else changes. */
  lemma ClearedExactly(s: State)
    ensures var t := Step(s, CleanupRan);
            && t.consumers == s.consumers && t.rows == s.rows
            && (if |s.processed| > 10_000 then t.processed == {} && t.clears == s.clears + 1 else t == s)
  {
  }

  ghost predicate Possible(s: State, events: seq<Event>)
    decreases |events|
  {
    events != [] ==> Enabled(s, events[0]) && Possible(Step(s, events[0]), events[1..])
  }

  ghost function Run(s: State, events: seq<Event>): State
    requires Possible(s, events)
    decreases |events|
  {
    if events == [] then s else Run(Step(s, events[0]), events[1..])
  }

  /** The consumers that `id` is ever delivered to; each reads one stream. */
  ghost predicate DeliveredWithin(id: string, streams: set<nat>, events: seq<Event>) {
    forall i :: 0 <= i < |events| && events[i].Delivered? && events[i].id == id ==> events[i].consumer in streams
  }

  // ---------------------------------------------------------------- what every step keeps

  predicate Holds(p: Pc, id: string) {
    p == Checked(id) || p == Inserted(id)
  }

  ghost predicate OwnedBy(id: string, owner: nat, s: State) {
    forall c :: 0 <= c < |s.consumers| && Holds(s.consumers[c], id) ==> c == owner
  }

  /** Some consumer has inserted a row for `id` and not marked it yet. */
  ghost predicate Unmarked(s: State, id: string) {
    exists c :: 0 <= c < |s.consumers| && s.consumers[c] == Inserted(id)
  }

  ghost predicate Bounded(s: State, id: string) {
    && Rows(s, id) <= s.clears + (if id in s.processed || Unmarked(s, id) then 1 else 0)
    && (id in s.processed || Unmarked(s, id) ==> Rows(s, id) >= 1)
    && (id in s.processed ==> forall c :: 0 <= c < |s.consumers| ==> s.consumers[c] != Checked(id))
  }

  ghost predicate Sound(id: string, owner: nat, s: State) {
    OwnedBy(id, owner, s) && Bounded(s, id)
  }

  lemma OwnedStep(id: string, owner: nat, s: State, e: Event)
    requires OwnedBy(id, owner, s) && Enabled(s, e) && DeliveredWithin(id, {owner}, [e])
    ensures OwnedBy(id, owner, Step(s, e))
  {
    assert [e][0] == e;
    var t := Step(s, e);
    forall c | 0 <= c < |t.consumers| && Holds(t.consumers[c], id) ensures c == owner {
      assert s.consumers[c] == t.consumers[c] ==> Holds(s.consumers[c], id);
      if e.InsertTried? && c == e.consumer {
        assert Holds(s.consumers[c], id);
      }
    }
  }

  lemma DeliverBounded(id: string, s: State, e: Event)
    requires Enabled(s, e) && e.Delivered? && Bounded(s, id)
    ensures Bounded(Step(s, e), id)
  {
    var t := Step(s, e);
    if Unmarked(t, id) {
      var c :| 0 <= c < |t.consumers| && t.consumers[c] == Inserted(id);
      assert s.consumers[c] == Inserted(id);
    }
    if Unmarked(s, id) {
      var c :| 0 <= c < |s.consumers| && s.consumers[c] == Inserted(id);
      assert t.consumers[c] == Inserted(id);
    }
  }

  lemma InsertBounded(id: string, owner: nat, s: State, e: Event)
    requires OwnedBy(id, owner, s) && Enabled(s, e) && e.InsertTried? && Bounded(s, id)
    ensures Bounded(Step(s, e), id)
  {
    var t, me := Step(s, e), s.consumers[e.consumer].id;
    assert Holds(s.consumers[e.consumer], me);
    if Unmarked(s, id) {
      var c :| 0 <= c < |s.consumers| && s.consumers[c] == Inserted(id);
      assert Holds(s.consumers[c], id);
      assert t.consumers[c] == Inserted(id);
    }
    if Unmarked(t, id) && id != me {
      var c :| 0 <= c < |t.consumers| && t.consumers[c] == Inserted(id);
      assert s.consumers[c] == Inserted(id);
    }
    if id == me && e.parsed && e.ok {
      assert t.consumers[e.consumer] == Inserted(id);
    }
  }

  lemma MarkBounded(id: string, owner: nat, s: State, e: Event)
    requires OwnedBy(id, owner, s) && Enabled(s, e) && e.MarkDone? && Bounded(s, id)
    ensures Bounded(Step(s, e), id)
  {
    var t, me := Step(s, e), s.consumers[e.consumer].id;
    assert Holds(s.consumers[e.consumer], me);
    if id == me {
      assert Unmarked(s, id);
      forall c | 0 <= c < |t.consumers| ensures t.consumers[c] != Checked(id) {
        assert s.consumers[c] == Checked(id) ==> Holds(s.consumers[c], id);
      }
    } else {
      if Unmarked(s, id) {
        var c :| 0 <= c < |s.consumers| && s.consumers[c] == Inserted(id);
        assert t.consumers[c] == Inserted(id);
      }
      if Unmarked(t, id) {
        var c :| 0 <= c < |t.consumers| && t.consumers[c] == Inserted(id);
        assert s.consumers[c] == Inserted(id);
      }
    }
  }

  lemma CleanupBounded(id: string, s: State)
    requires Bounded(s, id)
    ensures Bounded(Step(s, CleanupRan), id)
  {
    assert Unmarked(Step(s, CleanupRan), id) <==> Unmarked(s, id);
  }

  lemma SoundStep(id: string, owner: nat, s: State, e: Event)
    requires Sound(id, owner, s) && Enabled(s, e) && DeliveredWithin(id, {owner}, [e])
    ensures Sound(id, owner, Step(s, e))
  {
    OwnedStep(id, owner, s, e);
    match e
    case Delivered(_, _) => DeliverBounded(id, s, e);
    case InsertTried(_, _, _) => InsertBounded(id, owner, s, e);
    case MarkDone(_) => MarkBounded(id, owner, s, e);
    case CleanupRan => CleanupBounded(id, s);
  }

  lemma {:induction false} SoundRun(id: string, owner: nat, s: State, events: seq<Event>)
    requires Sound(id, owner, s) && Possible(s, events) && DeliveredWithin(id, {owner}, events)
    ensures Sound(id, owner, Run(s, events))
    decreases |events|
  {
    if events == [] {
    } else {
      SoundStep(id, owner, s, events[0]);
      SoundRun(id, owner, Step(s, events[0]), events[1..]);
    }
  }

  /**
   Idempotent persistence: over every interleaving with redelivery and failed inserts, an ID that
   occurs on one stream, whatever the others do, has at most one row more than the number of times
   the processed-ID map was cleared, and once it is marked as processed it has a row.
   */
  lemma IdempotentPersistence(id: string, owner: nat, events: seq<Event>)
    requires Possible(START, events) && DeliveredWithin(id, {owner}, events)
    ensures var s := Run(START, events);
            Rows(s, id) <= 1 + s.clears && (id in s.processed ==> Rows(s, id) >= 1)
  {
    SoundRun(id, owner, START, events);
  }

  /** Without clearing, such an ID has at most one row, and exactly one once it is marked. */
  lemma ExactlyOnceWithoutClearing(id: string, owner: nat, events: seq<Event>)
    requires Possible(START, events) && DeliveredWithin(id, {owner}, events) && Run(START, events).clears == 0
    ensures Rows(Run(START, events), id) <= 1
    ensures id in Run(START, events).processed ==> Rows(Run(START, events), id) == 1
  {
    IdempotentPersistence(id, owner, events);
  }

  // ---------------------------------------------------------------- an ID on several streams

  /** Two consumers check the same ID before either marks it, and both insert. */
  function Race(id: string, c: nat, d: nat): seq<Event> {
    [Delivered(c, id), Delivered(d, id), InsertTried(c, true, true), InsertTried(d, true, true)]
  }

  lemma RaceInsertsTwice(id: string, c: nat, d: nat)
    requires c < 3 && d < 3 && c != d
    ensures Possible(START, Race(id, c, d))
    ensures Rows(Run(START, Race(id, c, d)), id) == 2 && Run(START, Race(id, c, d)).clears == 0
  {
    var e0, e1 := Delivered(c, id), Delivered(d, id);
    var e2, e3 := InsertTried(c, true, true), InsertTried(d, true, true);
    var s1 := Step(START, e0);
    var s2 := Step(s1, e1);
    assert Race(id, c, d)[1..] == [e1, e2, e3] && [e1, e2, e3][1..] == [e2, e3];
    TwoEvents(s2, e2, e3);
    assert Run(s1, [e1, e2, e3]) == Run(s2, [e2, e3]);
    assert Possible(s1, [e1, e2, e3]);
  }

  /** Every run in which `id` is delivered only on the given streams keeps its row bound. */
  ghost predicate AlwaysBounded(id: string, streams: set<nat>) {
    forall events :: Possible(START, events) && DeliveredWithin(id, streams, events) ==>
      Rows(Run(START, events), id) <= 1 + Run(START, events).clears
  }

  lemma OneStreamBounded(id: string, streams: set<nat>, owner: nat)
    requires streams <= {owner}
    ensures AlwaysBounded(id, streams)
  {
    forall events | Possible(START, events) && DeliveredWithin(id, streams, events)
      ensures Rows(Run(START, events), id) <= 1 + Run(START, events).clears
    {
      IdempotentPersistence(id, owner, events);
    }
  }

  lemma AtMostOne(streams: set<nat>)
    ensures |streams| <= 1 <==> exists owner: nat :: streams <= {owner}
  {
    if owner: nat :| streams <= {owner} {
      assert streams == {} || streams == {owner};
    } else {
      assert !(streams <= {0});
      var c :| c in streams;
      assert !(streams <= {c});
      var d :| d in streams && d != c;
      assert |streams| == |streams - {c}| + 1;
      assert d in streams - {c};
    }
  }

  /** The row bound of an ID holds for every run exactly when the ID occurs on at most one stream. */
  lemma RowBoundExactly(id: string, streams: set<nat>)
    requires streams <= {0, 1, 2}
    ensures AlwaysBounded(id, streams) <==> |streams| <= 1
  {
    AtMostOne(streams);
    if owner: nat :| streams <= {owner} {
      OneStreamBounded(id, streams, owner);
    } else {
      assert !(streams <= {0});
      var c :| c in streams;
      assert !(streams <= {c});
      var d :| d in streams && d != c;
      RaceInsertsTwice(id, c, d);
      assert DeliveredWithin(id, streams, Race(id, c, d));
    }
  }

  // ---------------------------------------------------------------- the service

  class WriterService {
    var processedIDs: map<string, bool>
    var rows: map<string, nat>
    var consumers: seq<Pc>
    ghost var clears: nat

    ghost predicate Valid()
      reads this
    {
      forall id :: id in processedIDs ==> processedIDs[id]
    }

    ghost function S(): State
      reads this
    {
      State(processedIDs.Keys, consumers, rows, clears)
    }

    constructor ()
      ensures Valid() && S() == START
    {
      processedIDs, rows, consumers, clears := map[], map[], [Idle, Idle, Idle], 0;
    }

    method IsProcessed(id: string) returns (r: bool)
      requires Valid()
      ensures r <==> id in S().processed
    {
      r := id in processedIDs && processedIDs[id];
    }

    method MarkProcessed(id: string)
      requires Valid()
      modifies this`processedIDs
      ensures Valid() && S() == old(S()).(processed := old(S()).processed + {id})
    {
      processedIDs := processedIDs[id := true];
    }

    method CleanupProcessedIDs()
      requires Valid()
      modifies this
      ensures Valid() && S() == Step(old(S()), CleanupRan)
    {
      if |processedIDs| > CLEAR_ABOVE {
        processedIDs := map[];
        clears := clears + 1;
      }
    }

    /**
     One handler call of consumer `c` with nothing happening in between; `parsed` and `ok` say
     whether the data could be decoded and the row inserted.
     */
    method HandleEvent(c: nat, id: string, parsed: bool, ok: bool) returns (done: bool)
      requires Valid() && c < |consumers| && consumers[c].Idle?
      modifies this
      ensures Valid()
      ensures var events := if id in old(S()).processed then [Delivered(c, id)]
                            else if parsed && ok then [Delivered(c, id), InsertTried(c, true, true), MarkDone(c)]
                            else [Delivered(c, id), InsertTried(c, parsed, ok)];
              Possible(old(S()), events) && S() == Run(old(S()), events)
      ensures done <==> id in old(S()).processed || (parsed && ok)
    {
      ghost var s0 := S();
      var seen := IsProcessed(id);
      if seen {
        OneEvent(s0, Delivered(c, id));
        return true;
      }
      consumers := consumers[c := Checked(id)];
      ghost var s1 := S();
      if !parsed || !ok {
        consumers := consumers[c := Idle];
        TwoEvents(s0, Delivered(c, id), InsertTried(c, parsed, ok));
        return false;
      }
      rows := rows[id := (if id in rows then rows[id] else 0) + 1];
      consumers := consumers[c := Inserted(id)];
      ghost var s2 := S();
      assert s2 == Step(s1, InsertTried(c, true, true));
      MarkProcessed(id);
      consumers := consumers[c := Idle];
      ThreeEvents(s0, Delivered(c, id), InsertTried(c, true, true), MarkDone(c));
      return true;
    }
  }

  lemma OneEvent(s: State, e: Event)
    requires Enabled(s, e)
    ensures Possible(s, [e]) && Run(s, [e]) == Step(s, e)
  {
    assert [e][1..] == [];
    assert Run(Step(s, e), []) == Step(s, e);
  }

  lemma TwoEvents(s: State, e: Event, f: Event)
    requires Enabled(s, e) && Enabled(Step(s, e), f)
    ensures Possible(s, [e, f]) && Run(s, [e, f]) == Step(Step(s, e), f)
  {
    assert [e, f][1..] == [f];
    OneEvent(Step(s, e), f);
  }

  lemma ThreeEvents(s: State, e: Event, f: Event, g: Event)
    requires Enabled(s, e) && Enabled(Step(s, e), f) && Enabled(Step(Step(s, e), f), g)
    ensures Possible(s, [e, f, g]) && Run(s, [e, f, g]) == Step(Step(Step(s, e), f), g)
  {
    assert [e, f, g][1..] == [f, g];
    TwoEvents(Step(s, e), f, g);
  }
}

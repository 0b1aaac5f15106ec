/**
 The scheduler around the timing wheels: registering operations, ticking, running what is due, and
 rescheduling.  An operation that is reached before its time is dropped from the wheel, as the
 code does; the accounting says exactly where every placement went.
 */
module Scheduler {
  import opened Decimal
  import opened Wheels

  datatype Kind = Once | Repeating | Cron | Unsupported

  datatype Op = Op(kind: Kind, interval: int, nextRun: int, runCount: nat, maxRuns: nat)

  /** `inFlight` counts the handler goroutines that have been started and have not finished. */
  datatype Sched = Sched(
    wheels: seq<Wheel>, ops: map<string, Op>, nextId: nat, total: int, active: int, completed: int,
    inFlight: multiset<string>)

  function OpId(n: nat): string {
    "op_" + Itoa(n)
  }

  lemma OpIdInjective(a: nat, b: nat)
    requires OpId(a) == OpId(b)
    ensures a == b
  {
    assert OpId(a)[3..] == Itoa(a) && OpId(b)[3..] == Itoa(b);
    ReadBack(a);
    ReadBack(b);
  }

  // ---------------------------------------------------------------- operations

  function Start(): Sched {
    Sched(NewWheels(), map[], 0, 0, 0, 0, multiset{})
  }

  function FirstRun(kind: Kind, runAt: int, interval: int, now: int): int {
    match kind
    case Once => runAt
    case Repeating => now + interval
    case Cron => now + MINUTE
    case Unsupported => now
  }

  /** A request to schedule; `jitter` is the random shift, `now` and `placedAt` the clock readings. */
  datatype Request = Request(kind: Kind, runAt: int, interval: int, jitter: int, now: int, placedAt: int) {
    function NextRun(): int {
      FirstRun(kind, runAt, interval, now) + jitter
    }
  }

  ghost predicate CanSchedule(s: Sched, r: Request) {
    ValidWheels(s.wheels) && s.wheels != []
    && (!r.kind.Unsupported? ==> Placeable(s.wheels, r.NextRun() - r.placedAt))
  }

  function Schedule(s: Sched, r: Request): Sched
    requires CanSchedule(s, r)
  {
    if r.kind.Unsupported? then s.(nextId := s.nextId + 1)
    else
      var id := OpId(s.nextId);
      s.(nextId := s.nextId + 1, ops := s.ops[id := Op(r.kind, r.interval, r.NextRun(), 0, 0)],
         total := s.total + 1, active := s.active + 1, wheels := Put(s.wheels, r.NextRun() - r.placedAt, id))
  }

  /** Whether an operation reached by a tick runs, given the clock reading at that moment. */
  predicate IsDue(ops: map<string, Op>, clock: string -> int, id: string) {
    id in ops && ops[id].nextRun < clock(id)
  }

  function Due(ops: map<string, Op>, clock: string -> int, ids: seq<string>): seq<string> {
    if ids == [] then []
    else (if IsDue(ops, clock, ids[0]) then [ids[0]] else []) + Due(ops, clock, ids[1..])
  }

  function NotDue(ops: map<string, Op>, clock: string -> int, ids: seq<string>): seq<string> {
    if ids == [] then []
    else (if IsDue(ops, clock, ids[0]) then [] else [ids[0]]) + NotDue(ops, clock, ids[1..])
  }

  ghost function Tick(s: Sched, clock: string -> int): Sched
    requires ValidWheels(s.wheels) && s.wheels != []
  {
    s.(wheels := Advance(s.wheels, 0), inFlight := s.inFlight + multiset(Due(s.ops, clock, Reached(s.wheels, 0))))
  }

  /** The operation after one more run, and whether it is scheduled again. */
  function AfterRun(op: Op): (Op, bool) {
    var ran := op.(runCount := op.runCount + 1);
    if op.kind.Repeating? && (op.maxRuns == 0 || ran.runCount < op.maxRuns) then
      (ran.(nextRun := op.nextRun + op.interval), true)
    else if op.kind.Cron? then (ran.(nextRun := op.nextRun + MINUTE), true)
    else (ran, false)
  }

  ghost predicate CanComplete(s: Sched, id: string, placedAt: int) {
    && ValidWheels(s.wheels) && s.wheels != [] && id in s.inFlight && id in s.ops
    && (AfterRun(s.ops[id]).1 ==> Placeable(s.wheels, AfterRun(s.ops[id]).0.nextRun - placedAt))
  }

  /** The tail of a handler goroutine. */
  function Complete(s: Sched, id: string, placedAt: int): Sched
    requires CanComplete(s, id, placedAt)
  {
    var t := s.(inFlight := s.inFlight - multiset{id}, completed := s.completed + 1);
    var (op, again) := AfterRun(s.ops[id]);
    if again then t.(ops := s.ops[id := op], wheels := Put(s.wheels, op.nextRun - placedAt, id))
    else t.(ops := s.ops - {id}, active := s.active - 1)
  }

  // ---------------------------------------------------------------- counting waiting operations

  ghost function Occ(ids: seq<string>, id: string): nat {
    if ids == [] then 0 else (if ids[0] == id then 1 else 0) + Occ(ids[1..], id)
  }

  ghost function SlotsOcc(slots: seq<seq<string>>, id: string): nat {
    if slots == [] then 0 else Occ(slots[0], id) + SlotsOcc(slots[1..], id)
  }

  /** How often an operation waits in the slots of all wheels. */
  ghost function Waiting(ws: seq<Wheel>, id: string): nat {
    if ws == [] then 0 else SlotsOcc(ws[0].slots, id) + Waiting(ws[1..], id)
  }

  lemma {:induction false} OccAppend(a: seq<string>, b: seq<string>, id: string)
    ensures Occ(a + b, id) == Occ(a, id) + Occ(b, id)
  {
    if a == [] {
      assert a + b == b;
    } else {
      assert (a + b)[1..] == a[1..] + b;
      OccAppend(a[1..], b, id);
    }
  }

  lemma {:induction false} OccIsMultiplicity(ids: seq<string>, id: string)
    ensures multiset(ids)[id] == Occ(ids, id)
  {
    if ids == [] {
    } else {
      OccIsMultiplicity(ids[1..], id);
      assert ids == [ids[0]] + ids[1..];
    }
  }

  lemma {:induction false} SlotsUpdate(slots: seq<seq<string>>, i: nat, slot: seq<string>, id: string)
    requires i < |slots|
    ensures SlotsOcc(slots[i := slot], id) + Occ(slots[i], id) == SlotsOcc(slots, id) + Occ(slot, id)
  {
    if i == 0 {
      assert slots[i := slot][1..] == slots[1..];
    } else {
      SlotsUpdate(slots[1..], i - 1, slot, id);
      assert slots[i := slot][1..] == slots[1..][i - 1 := slot];
    }
  }

  lemma {:induction false} WheelsUpdate(ws: seq<Wheel>, i: nat, w: Wheel, id: string)
    requires i < |ws|
    ensures Waiting(ws[i := w], id) + SlotsOcc(ws[i].slots, id) == Waiting(ws, id) + SlotsOcc(w.slots, id)
  {
    if i == 0 {
      assert ws[i := w][1..] == ws[1..];
    } else {
      WheelsUpdate(ws[1..], i - 1, w, id);
      assert ws[i := w][1..] == ws[1..][i - 1 := w];
    }
  }

  lemma SlotUpdate(ws: seq<Wheel>, i: nat, w: Wheel, slot: nat, content: seq<string>, id: string)
    requires i < |ws| && slot < |ws[i].slots| && w.slots == ws[i].slots[slot := content]
    ensures Waiting(ws[i := w], id) + Occ(ws[i].slots[slot], id) == Waiting(ws, id) + Occ(content, id)
  {
    SlotsUpdate(ws[i].slots, slot, content, id);
    WheelsUpdate(ws, i, w, id);
  }

  lemma PutCounts(ws: seq<Wheel>, delay: int, id: string, other: string)
    requires ValidWheels(ws) && ws != [] && Placeable(ws, delay)
    ensures Waiting(Put(ws, delay, id), other) == Waiting(ws, other) + (if other == id then 1 else 0)
  {
    var i := TargetFrom(ws, delay, 0);
    var slot := SlotIndex(ws[i], delay);
    var grown := ws[i].slots[slot] + [id];
    SlotUpdate(ws, i, ws[i].(slots := ws[i].slots[slot := grown]), slot, grown, other);
    OccAppend(ws[i].slots[slot], [id], other);
    assert [id][1..] == [];
  }

  /** What a cascade takes out of the wheels is exactly what it reaches. */
  lemma {:induction false} AdvanceTakes(ws: seq<Wheel>, i: nat, id: string)
    requires ValidWheels(ws) && i < |ws|
    ensures Waiting(Advance(ws, i), id) + Occ(Reached(ws, i), id) == Waiting(ws, id)
    decreases |ws| - i
  {
    var turned, here := ws[i := Turn(ws[i])], ws[i].slots[ws[i].Next()];
    SlotUpdate(ws, i, Turn(ws[i]), ws[i].Next(), [], id);
    if ws[i].Next() == 0 && i + 1 < |ws| {
      AdvanceTakes(turned, i + 1, id);
      TurnElsewhere(ws, i, i + 1);
      OccAppend(here, Reached(ws, i + 1), id);
    } else {
      assert here + [] == here;
    }
  }

  lemma {:induction false} DueSplits(ops: map<string, Op>, clock: string -> int, ids: seq<string>, id: string)
    ensures Occ(Due(ops, clock, ids), id) + Occ(NotDue(ops, clock, ids), id) == Occ(ids, id)
  {
    if ids == [] {
    } else {
      DueSplits(ops, clock, ids[1..], id);
      var due, not := Due(ops, clock, ids[1..]), NotDue(ops, clock, ids[1..]);
      OccAppend([ids[0]], due, id);
      OccAppend([ids[0]], not, id);
      assert [ids[0]][1..] == [] && [] + due == due && [] + not == not;
    }
  }

  // ---------------------------------------------------------------- runs and their accounts

  datatype Event =
    | Scheduled(request: Request)
    | Ticked(clock: string -> int)
    | Completed(id: string, placedAt: int)

  /**
   The scheduler with its books: every placement ever made, every run started, every run finished,
   every placement dropped, and the due time each operation was first given.
   */
  datatype World = World(
    s: Sched, ticks: nat, placed: multiset<string>, executed: multiset<string>, finished: multiset<string>,
    discarded: multiset<string>, first: map<string, int>)

  ghost function Open(): World {
    World(Start(), 0, multiset{}, multiset{}, multiset{}, multiset{}, map[])
  }

  ghost predicate Enabled(w: World, e: Event) {
    match e
    case Scheduled(r) => CanSchedule(w.s, r)
    case Ticked(_) => ValidWheels(w.s.wheels) && w.s.wheels != []
    case Completed(id, placedAt) => CanComplete(w.s, id, placedAt)
  }

  ghost function Step(w: World, e: Event): World
    requires Enabled(w, e)
  {
    match e
    case Scheduled(r) =>
      var id := OpId(w.s.nextId);
      if r.kind.Unsupported? then w.(s := Schedule(w.s, r))
      else w.(s := Schedule(w.s, r), placed := w.placed + multiset{id}, first := w.first[id := r.NextRun()])
    case Ticked(clock) =>
      var reached := Reached(w.s.wheels, 0);
      w.(s := Tick(w.s, clock), ticks := w.ticks + 1,
         executed := w.executed + multiset(Due(w.s.ops, clock, reached)),
         discarded := w.discarded + multiset(NotDue(w.s.ops, clock, reached)))
    case Completed(id, placedAt) =>
      w.(s := Complete(w.s, id, placedAt), finished := w.finished + multiset{id},
         placed := if AfterRun(w.s.ops[id]).1 then w.placed + multiset{id} else w.placed)
  }

  ghost predicate Possible(w: World, events: seq<Event>)
    decreases |events|
  {
    events != [] ==> Enabled(w, events[0]) && Possible(Step(w, events[0]), events[1..])
  }

  ghost function Run(w: World, events: seq<Event>): World
    requires Possible(w, events)
    decreases |events|
  {
    if events == [] then w else Run(Step(w, events[0]), events[1..])
  }

  ghost predicate Positions(w: World) {
    Layout(w.s.wheels) && Odometer(w.s.wheels, 0, w.ticks)
  }

  /** Every placement is waiting in a slot, was executed, or was discarded. */
  ghost predicate Conserved(w: World) {
    forall id :: ConservedFor(w, id)
  }

  ghost predicate ConservedFor(w: World, id: string) {
    && w.placed[id] == Waiting(w.s.wheels, id) + w.executed[id] + w.discarded[id]
    && w.executed[id] == w.s.inFlight[id] + w.finished[id]
  }

  /** A registered operation waits in at most one slot or runs once, never both. */
  ghost predicate InOnePlace(w: World) {
    forall id :: InOnePlaceFor(w, id)
  }

  ghost predicate InOnePlaceFor(w: World, id: string) {
    Waiting(w.s.wheels, id) + w.s.inFlight[id] <= (if id in w.s.ops then 1 else 0)
  }

  ghost predicate Registered(w: World) {
    && w.s.active == |w.s.ops|
    && w.s.completed == |w.finished|
    && (forall id :: id in w.s.ops ==> exists k: nat :: k < w.s.nextId && id == OpId(k))
  }

  /** A repeating operation's next run is its first due time plus one interval per run. */
  ghost predicate OnSchedule(w: World) {
    forall id :: id in w.s.ops && w.s.ops[id].kind.Repeating? ==>
      && w.s.ops[id].maxRuns == 0
      && id in w.first && w.s.ops[id].nextRun == w.first[id] + w.s.ops[id].runCount * w.s.ops[id].interval
  }

  ghost predicate RepeatsOn(s: Sched, id: string) {
    id in s.ops && s.ops[id].kind.Repeating?
  }

  lemma RepeatsAfterSchedule(s: Sched, r: Request, id: string)
    requires CanSchedule(s, r) && RepeatsOn(s, id) && id != OpId(s.nextId)
    ensures RepeatsOn(Schedule(s, r), id)
  {
  }

  lemma RepeatsAfterComplete(s: Sched, done: string, placedAt: int, id: string)
    requires CanComplete(s, done, placedAt) && RepeatsOn(s, id) && s.ops[id].maxRuns == 0
    ensures RepeatsOn(Complete(s, done, placedAt), id)
  {
  }

  /** No request sets a run limit, so a repeating operation is never removed. */
  lemma RepeatingStays(w: World, e: Event, id: string)
    requires Registered(w) && OnSchedule(w) && Enabled(w, e) && RepeatsOn(w.s, id)
    ensures RepeatsOn(Step(w, e).s, id)
  {
    match e
    case Scheduled(r) =>
      FreshId(w);
      RepeatsAfterSchedule(w.s, r, id);
    case Ticked(_) =>
    case Completed(done, placedAt) => RepeatsAfterComplete(w.s, done, placedAt, id);
  }

  ghost predicate Sound(w: World) {
    Positions(w) && Conserved(w) && InOnePlace(w) && Registered(w) && OnSchedule(w)
  }

  // ---------------------------------------------------------------- each step keeps the accounts

  lemma FreshId(w: World)
    requires Registered(w)
    ensures OpId(w.s.nextId) !in w.s.ops
  {
    if OpId(w.s.nextId) in w.s.ops {
      var k: nat :| k < w.s.nextId && OpId(w.s.nextId) == OpId(k);
      OpIdInjective(w.s.nextId, k);
    }
  }

  lemma PutLayout(ws: seq<Wheel>, delay: int, id: string)
    requires Layout(ws) && Placeable(ws, delay)
    ensures Layout(Put(ws, delay, id))
  {
  }

  lemma AdvanceLayout(ws: seq<Wheel>)
    requires Layout(ws)
    ensures Layout(Advance(ws, 0))
  {
    AdvanceFrame(ws, 0);
  }

  lemma PutPositions(ws: seq<Wheel>, delay: int, id: string, t: nat)
    requires Layout(ws) && Placeable(ws, delay) && Odometer(ws, 0, t)
    ensures Layout(Put(ws, delay, id)) && Odometer(Put(ws, delay, id), 0, t)
  {
    PutLayout(ws, delay, id);
    SamePositions(ws, Put(ws, delay, id), 0, t);
  }

  lemma {:induction false} SamePositions(ws: seq<Wheel>, vs: seq<Wheel>, i: nat, t: nat)
    requires ValidWheels(ws) && ValidWheels(vs) && |vs| == |ws|
    requires forall j :: 0 <= j < |ws| ==> vs[j].currentSlot == ws[j].currentSlot && |vs[j].slots| == |ws[j].slots|
    ensures Odometer(vs, i, t) == Odometer(ws, i, t)
    decreases |ws| - i
  {
    if i >= |ws| {
    } else {
      SamePositions(ws, vs, i + 1, t / |ws[i].slots|);
    }
  }

  /** Where an operation is after one was scheduled. */
  lemma ScheduleCounts(s: Sched, r: Request, id: string)
    requires CanSchedule(s, r) && !r.kind.Unsupported?
    ensures Waiting(Schedule(s, r).wheels, id) == Waiting(s.wheels, id) + (if id == OpId(s.nextId) then 1 else 0)
    ensures Schedule(s, r).inFlight == s.inFlight
    ensures id in Schedule(s, r).ops <==> id in s.ops || id == OpId(s.nextId)
  {
    PutCounts(s.wheels, r.NextRun() - r.placedAt, OpId(s.nextId), id);
  }

  lemma SchedulePlaces(w: World, r: Request, id: string)
    requires Registered(w) && ConservedFor(w, id) && InOnePlaceFor(w, id) && CanSchedule(w.s, r) && !r.kind.Unsupported?
    ensures ConservedFor(Step(w, Scheduled(r)), id) && InOnePlaceFor(Step(w, Scheduled(r)), id)
  {
    FreshId(w);
    ScheduleCounts(w.s, r, id);
  }

  lemma RegisteredSchedule(w: World, r: Request)
    requires Registered(w) && CanSchedule(w.s, r)
    ensures Registered(Step(w, Scheduled(r)))
  {
    var w', id := Step(w, Scheduled(r)), OpId(w.s.nextId);
    FreshId(w);
    if !r.kind.Unsupported? {
      assert w'.s.ops.Keys == w.s.ops.Keys + {id};
    }
    forall o | o in w'.s.ops ensures exists k: nat :: k < w'.s.nextId && o == OpId(k) {
      if o in w.s.ops {
        var k: nat :| k < w.s.nextId && o == OpId(k);
        assert k < w'.s.nextId;
      } else {
        assert o == OpId(w.s.nextId);
      }
    }
  }

  lemma ScheduleConserved(w: World, r: Request)
    requires Registered(w) && Conserved(w) && InOnePlace(w) && CanSchedule(w.s, r) && !r.kind.Unsupported?
    ensures Conserved(Step(w, Scheduled(r))) && InOnePlace(Step(w, Scheduled(r)))
  {
    forall id ensures ConservedFor(Step(w, Scheduled(r)), id) && InOnePlaceFor(Step(w, Scheduled(r)), id) {
      assert ConservedFor(w, id) && InOnePlaceFor(w, id);
      SchedulePlaces(w, r, id);
    }
  }

  lemma SchedulePositions(w: World, r: Request)
    requires Positions(w) && CanSchedule(w.s, r) && !r.kind.Unsupported?
    ensures Positions(Step(w, Scheduled(r)))
  {
    PutPositions(w.s.wheels, r.NextRun() - r.placedAt, OpId(w.s.nextId), w.ticks);
  }

  lemma ScheduleSound(w: World, r: Request)
    requires Sound(w) && CanSchedule(w.s, r) && !r.kind.Unsupported?
    ensures Sound(Step(w, Scheduled(r)))
  {
    SchedulePositions(w, r);
    ScheduleConserved(w, r);
    RegisteredSchedule(w, r);
    ScheduleOnSchedule(w, r);
  }

  lemma ScheduleOnSchedule(w: World, r: Request)
    requires OnSchedule(w) && CanSchedule(w.s, r)
    ensures OnSchedule(Step(w, Scheduled(r)))
  {
  }

  lemma TickMoves(w: World, clock: string -> int, id: string)
    requires Positions(w) && ConservedFor(w, id) && InOnePlaceFor(w, id)
    ensures ConservedFor(Step(w, Ticked(clock)), id) && InOnePlaceFor(Step(w, Ticked(clock)), id)
  {
    var reached := Reached(w.s.wheels, 0);
    AdvanceTakes(w.s.wheels, 0, id);
    DueSplits(w.s.ops, clock, reached, id);
    OccIsMultiplicity(Due(w.s.ops, clock, reached), id);
    OccIsMultiplicity(NotDue(w.s.ops, clock, reached), id);
  }

  lemma TickSound(w: World, clock: string -> int)
    requires Sound(w)
    ensures Sound(Step(w, Ticked(clock)))
  {
    forall id ensures ConservedFor(Step(w, Ticked(clock)), id) && InOnePlaceFor(Step(w, Ticked(clock)), id) {
      assert ConservedFor(w, id) && InOnePlaceFor(w, id);
      TickMoves(w, clock, id);
    }
    TickPositions(w, clock);
  }

  lemma TickPositions(w: World, clock: string -> int)
    requires Positions(w)
    ensures Positions(Step(w, Ticked(clock)))
  {
    AdvanceLayout(w.s.wheels);
    AdvanceCounts(w.s.wheels, 0, w.ticks);
  }

  /** Where an operation is after a run completes. */
  lemma CompleteCounts(s: Sched, done: string, placedAt: int, id: string)
    requires CanComplete(s, done, placedAt)
    ensures Waiting(Complete(s, done, placedAt).wheels, id)
         == Waiting(s.wheels, id) + (if id == done && AfterRun(s.ops[done]).1 then 1 else 0)
    ensures Complete(s, done, placedAt).inFlight[id] == s.inFlight[id] - (if id == done then 1 else 0)
    ensures id in Complete(s, done, placedAt).ops <==> id in s.ops && (id == done ==> AfterRun(s.ops[done]).1)
  {
    var (op, again) := AfterRun(s.ops[done]);
    if again {
      PutCounts(s.wheels, op.nextRun - placedAt, done, id);
    }
  }

  lemma CompleteMoves(w: World, done: string, placedAt: int, id: string)
    requires CanComplete(w.s, done, placedAt) && InOnePlaceFor(w, done)
    requires ConservedFor(w, id) && InOnePlaceFor(w, id)
    ensures ConservedFor(Step(w, Completed(done, placedAt)), id)
    ensures InOnePlaceFor(Step(w, Completed(done, placedAt)), id)
  {
    CompleteCounts(w.s, done, placedAt, id);
  }

  lemma CompletePositions(w: World, id: string, placedAt: int)
    requires Positions(w) && CanComplete(w.s, id, placedAt)
    ensures Positions(Step(w, Completed(id, placedAt)))
  {
    var (op, again) := AfterRun(w.s.ops[id]);
    if again {
      PutPositions(w.s.wheels, op.nextRun - placedAt, id, w.ticks);
    }
  }

  lemma CompleteRegistered(w: World, id: string, placedAt: int)
    requires Registered(w) && CanComplete(w.s, id, placedAt)
    ensures Registered(Step(w, Completed(id, placedAt)))
  {
    var w' := Step(w, Completed(id, placedAt));
    assert w'.s.ops.Keys == (if AfterRun(w.s.ops[id]).1 then w.s.ops.Keys else w.s.ops.Keys - {id});
  }

  lemma CompleteOnSchedule(w: World, id: string, placedAt: int)
    requires OnSchedule(w) && CanComplete(w.s, id, placedAt)
    ensures OnSchedule(Step(w, Completed(id, placedAt)))
  {
    NextInterval(w.s.ops[id].runCount, w.s.ops[id].interval);
  }

  lemma NextInterval(runs: nat, interval: int)
    ensures (runs + 1) * interval == runs * interval + interval
  {
  }

  lemma CompleteSound(w: World, done: string, placedAt: int)
    requires Sound(w) && CanComplete(w.s, done, placedAt)
    ensures Sound(Step(w, Completed(done, placedAt)))
  {
    assert InOnePlaceFor(w, done);
    forall id
      ensures ConservedFor(Step(w, Completed(done, placedAt)), id)
      ensures InOnePlaceFor(Step(w, Completed(done, placedAt)), id)
    {
      assert ConservedFor(w, id) && InOnePlaceFor(w, id);
      CompleteMoves(w, done, placedAt, id);
    }
    CompletePositions(w, done, placedAt);
    CompleteRegistered(w, done, placedAt);
    CompleteOnSchedule(w, done, placedAt);
  }

  lemma UnsupportedSound(w: World, r: Request)
    requires Sound(w) && CanSchedule(w.s, r) && r.kind.Unsupported?
    ensures Sound(Step(w, Scheduled(r)))
  {
    RegisteredSchedule(w, r);
    forall id ensures ConservedFor(Step(w, Scheduled(r)), id) && InOnePlaceFor(Step(w, Scheduled(r)), id) {
      assert ConservedFor(w, id) && InOnePlaceFor(w, id);
    }
  }

  lemma StepSound(w: World, e: Event)
    requires Sound(w) && Enabled(w, e)
    ensures Sound(Step(w, e))
  {
    match e
    case Scheduled(r) =>
      if r.kind.Unsupported? {
        UnsupportedSound(w, r);
      } else {
        ScheduleSound(w, r);
      }
    case Ticked(clock) => TickSound(w, clock);
    case Completed(id, placedAt) => CompleteSound(w, id, placedAt);
  }

  /**
   Conservation over every run: placements = waiting + executed + discarded, no operation is in two
   places, the active count is the number of registered operations, repeating operations keep their
   rhythm, and the wheels stand at the digits of the tick count.
   */
  lemma {:induction false} AlwaysSound(w: World, events: seq<Event>)
    requires Sound(w) && Possible(w, events)
    ensures Sound(Run(w, events))
    decreases |events|
  {
    if events == [] {
    } else {
      StepSound(w, events[0]);
      AlwaysSound(Step(w, events[0]), events[1..]);
    }
  }

  lemma OpenSound()
    ensures Sound(Open())
  {
    var ws := NewWheels();
    assert Odometer(ws, 4, 0) && Odometer(ws, 3, 0) && Odometer(ws, 2, 0) && Odometer(ws, 1, 0);
    forall id ensures ConservedFor(Open(), id) && InOnePlaceFor(Open(), id) {
      NothingWaits(id);
    }
  }

  lemma NothingWaits(id: string)
    ensures Waiting(NewWheels(), id) == 0
  {
    var ws := NewWheels();
    EmptySlots(1000, id);
    EmptySlots(60, id);
    EmptySlots(24, id);
    assert Waiting(ws[3..], id) == 0 && Waiting(ws[2..], id) == 0 && Waiting(ws[1..], id) == 0;
  }

  lemma {:induction false} EmptySlots(n: nat, id: string)
    ensures SlotsOcc(seq(n, _ => []), id) == 0
  {
    if n == 0 {
    } else {
      EmptySlots(n - 1, id);
      var slots: seq<seq<string>> := seq(n, _ => []);
      assert slots[1..] == seq(n - 1, _ => []);
    }
  }

  lemma SoundFromStart(events: seq<Event>)
    requires Possible(Open(), events)
    ensures Sound(Run(Open(), events))
  {
    OpenSound();
    AlwaysSound(Open(), events);
  }

  // ---------------------------------------------------------------- what each operation records

  /** When a request's operation is due: at the time asked for, one interval on, or one minute on, shifted. */
  lemma ScheduledRecord(w: World, r: Request)
    requires CanSchedule(w.s, r) && !r.kind.Unsupported?
    ensures var id, t := OpId(w.s.nextId), Step(w, Scheduled(r)).s;
            && id in t.ops && t.ops == w.s.ops[id := t.ops[id]] && t.nextId == w.s.nextId + 1
            && t.ops[id].kind == r.kind && t.ops[id].interval == r.interval && t.ops[id].runCount == 0
            && (r.kind.Once? ==> t.ops[id].nextRun == r.runAt + r.jitter)
            && (r.kind.Repeating? ==> t.ops[id].nextRun == r.now + r.interval + r.jitter)
            && (r.kind.Cron? ==> t.ops[id].nextRun == r.now + 60_000_000_000 + r.jitter)
            && t.total == w.s.total + 1 && t.active == w.s.active + 1 && t.completed == w.s.completed
            && t.inFlight == w.s.inFlight
  {
  }

  /** An unsupported kind uses up an ID and changes nothing else. */
  lemma UnsupportedRecord(w: World, r: Request)
    requires CanSchedule(w.s, r) && r.kind.Unsupported?
    ensures Step(w, Scheduled(r)).s == w.s.(nextId := w.s.nextId + 1)
  {
  }

  /** A finished one-time operation is gone and waits nowhere. */
  lemma OnceEnds(w: World, id: string, placedAt: int)
    requires Sound(w) && CanComplete(w.s, id, placedAt) && w.s.ops[id].kind.Once?
    ensures var t := Step(w, Completed(id, placedAt)).s;
            && t.ops == w.s.ops - {id} && t.active == w.s.active - 1 && t.completed == w.s.completed + 1
            && Waiting(t.wheels, id) == 0 && t.inFlight[id] == 0
  {
    assert InOnePlaceFor(w, id);
  }

  /** A finished repeating or cron operation has one more run behind it and waits for the next. */
  lemma RepeatContinues(w: World, id: string, placedAt: int)
    requires Sound(w) && CanComplete(w.s, id, placedAt)
    requires w.s.ops[id].kind.Repeating? || w.s.ops[id].kind.Cron?
    ensures var op, t := w.s.ops[id], Step(w, Completed(id, placedAt)).s;
            && id in t.ops && t.ops == w.s.ops[id := t.ops[id]]
            && t.ops[id].runCount == op.runCount + 1 && t.ops[id].kind == op.kind && t.ops[id].interval == op.interval
            && t.ops[id].nextRun == op.nextRun + (if op.kind.Repeating? then op.interval else 60_000_000_000)
            && t.active == w.s.active && t.completed == w.s.completed + 1
            && Waiting(t.wheels, id) == 1 && t.inFlight[id] == 0
  {
    assert InOnePlaceFor(w, id);
    CompleteCounts(w.s, id, placedAt, id);
  }

  // ---------------------------------------------------------------- when a placement is reached

  /** `id` waits in the given slot of the given wheel. */
  ghost predicate Sits(ws: seq<Wheel>, id: string, j: nat, slot: nat) {
    Layout(ws) && j < 4 && slot < Ring(j) && id in ws[j].slots[slot]
  }

  lemma PutKeepsSits(ws: seq<Wheel>, delay: int, other: string, id: string, j: nat, slot: nat)
    requires Sits(ws, id, j, slot) && Placeable(ws, delay)
    ensures Sits(Put(ws, delay, other), id, j, slot)
  {
    PutLayout(ws, delay, other);
  }

  lemma PlacedSits(ws: seq<Wheel>, delay: int, id: string)
    requires Layout(ws) && Placeable(ws, delay)
    ensures var j := TargetFrom(ws, delay, 0); Sits(Put(ws, delay, id), id, j, SlotIndex(ws[j], delay))
  {
    PutSits(ws, delay, id);
    PutLayout(ws, delay, id);
  }

  /** Every scheduled operation sits in the slot computed for its delay. */
  lemma ScheduledSits(w: World, r: Request)
    requires Layout(w.s.wheels) && CanSchedule(w.s, r) && !r.kind.Unsupported?
    ensures var delay := r.NextRun() - r.placedAt;
            var j := TargetFrom(w.s.wheels, delay, 0);
            Sits(Step(w, Scheduled(r)).s.wheels, OpId(w.s.nextId), j, SlotIndex(w.s.wheels[j], delay))
  {
    PlacedSits(w.s.wheels, r.NextRun() - r.placedAt, OpId(w.s.nextId));
  }

  /** So does every operation that is scheduled again after a run. */
  lemma RescheduledSits(w: World, id: string, placedAt: int)
    requires Layout(w.s.wheels) && CanComplete(w.s, id, placedAt) && AfterRun(w.s.ops[id]).1
    ensures var delay := AfterRun(w.s.ops[id]).0.nextRun - placedAt;
            var j := TargetFrom(w.s.wheels, delay, 0);
            Sits(Step(w, Completed(id, placedAt)).s.wheels, id, j, SlotIndex(w.s.wheels[j], delay))
  {
    PlacedSits(w.s.wheels, AfterRun(w.s.ops[id]).0.nextRun - placedAt, id);
  }

  lemma TickKeepsSits(w: World, clock: string -> int, id: string, j: nat, slot: nat)
    requires Positions(w) && Sits(w.s.wheels, id, j, slot) && !Hits(w.ticks + 1, j, slot)
    ensures Sits(Step(w, Ticked(clock)).s.wheels, id, j, slot)
  {
    AdvanceLayout(w.s.wheels);
    AdvanceSlot(w.s.wheels, 0, w.ticks, j, slot);
    HitsExactly(w.s.wheels, w.ticks + 1, j, slot);
  }

  lemma StepKeepsSits(w: World, e: Event, id: string, j: nat, slot: nat)
    requires Positions(w) && Enabled(w, e) && Sits(w.s.wheels, id, j, slot)
    requires e.Ticked? ==> !Hits(w.ticks + 1, j, slot)
    ensures Sits(Step(w, e).s.wheels, id, j, slot)
  {
    match e
    case Scheduled(r) =>
      if !r.kind.Unsupported? {
        PutKeepsSits(w.s.wheels, r.NextRun() - r.placedAt, OpId(w.s.nextId), id, j, slot);
      }
    case Ticked(clock) => TickKeepsSits(w, clock, id, j, slot);
    case Completed(done, placedAt) =>
      var (op, again) := AfterRun(w.s.ops[done]);
      if again {
        PutKeepsSits(w.s.wheels, op.nextRun - placedAt, done, id, j, slot);
      }
  }

  lemma {:induction false} TicksGrow(w: World, events: seq<Event>)
    requires Possible(w, events)
    ensures Run(w, events).ticks >= w.ticks
    decreases |events|
  {
    if events == [] {
    } else {
      TicksGrow(Step(w, events[0]), events[1..]);
    }
  }

  lemma {:induction false} SitsUntil(w: World, events: seq<Event>, id: string, j: nat, slot: nat, hit: nat)
    requires Sound(w) && Possible(w, events) && Sits(w.s.wheels, id, j, slot) && Run(w, events).ticks < hit
    requires forall u: nat :: w.ticks < u < hit ==> !Hits(u, j, slot)
    ensures Sits(Run(w, events).s.wheels, id, j, slot)
    decreases |events|
  {
    if events == [] {
    } else {
      var next := Step(w, events[0]);
      TicksGrow(next, events[1..]);
      StepSound(w, events[0]);
      StepKeepsSits(w, events[0], id, j, slot);
      SitsUntil(next, events[1..], id, j, slot, hit);
    }
  }

  /** What sits in a slot is waiting. */
  lemma SitsWaits(ws: seq<Wheel>, id: string, j: nat, slot: nat)
    requires j < |ws| && slot < |ws[j].slots| && id in ws[j].slots[slot]
    ensures Waiting(ws, id) >= 1
  {
    SlotUpdate(ws, j, ws[j].(slots := ws[j].slots[slot := []]), slot, [], id);
    OccIsMultiplicity(ws[j].slots[slot], id);
  }

  lemma ReachedOnce(w: World, id: string, j: nat, slot: nat)
    requires Sound(w) && Sits(w.s.wheels, id, j, slot)
    ensures id in Reached(w.s.wheels, 0) <==> Hits(w.ticks + 1, j, slot)
  {
    AdvanceSlot(w.s.wheels, 0, w.ticks, j, slot);
    HitsExactly(w.s.wheels, w.ticks + 1, j, slot);
    if !Hits(w.ticks + 1, j, slot) {
      SitsWaits(Advance(w.s.wheels, 0), id, j, slot);
      AdvanceTakes(w.s.wheels, 0, id);
      OccIsMultiplicity(Reached(w.s.wheels, 0), id);
      assert InOnePlaceFor(w, id);
    }
  }

  /**
   A placement is reached by exactly one computable tick, over every run and whatever else is
   scheduled and completed meanwhile: it is untouched before, and the next tick reaches it if and
   only if that tick is the first to move its wheel to its slot.
   */
  lemma ReachedAtFirstHit(w: World, events: seq<Event>, id: string, j: nat, slot: nat, hit: nat)
    requires Sound(w) && Possible(w, events) && Sits(w.s.wheels, id, j, slot)
    requires IsFirstHit(w.ticks, j, slot, hit) && Run(w, events).ticks < hit
    ensures Sound(Run(w, events)) && Sits(Run(w, events).s.wheels, id, j, slot)
    ensures id in Reached(Run(w, events).s.wheels, 0) <==> Run(w, events).ticks + 1 == hit
  {
    AlwaysSound(w, events);
    TicksGrow(w, events);
    SitsUntil(w, events, id, j, slot, hit);
    ReachedOnce(Run(w, events), id, j, slot);
  }

  // ---------------------------------------------------------------- dropped operations

  /** Registered, but neither waiting nor running: the fate of an operation reached before its time. */
  ghost predicate Stranded(w: World, id: string) {
    id in w.s.ops && Waiting(w.s.wheels, id) == 0 && w.s.inFlight[id] == 0
  }

  /** The event reaches `id` before its time, by the clock reading of that moment, and drops it. */
  ghost predicate Drops(w: World, e: Event, id: string)
    requires Enabled(w, e)
  {
    e.Ticked? && id in w.s.ops && id in Reached(w.s.wheels, 0) && e.clock(id) <= w.s.ops[id].nextRun
  }

  lemma StrandedSchedule(w: World, r: Request, id: string)
    requires Registered(w) && CanSchedule(w.s, r)
    ensures Stranded(Step(w, Scheduled(r)), id) <==> Stranded(w, id)
    ensures Step(w, Scheduled(r)).executed[id] == w.executed[id]
  {
    FreshId(w);
    if !r.kind.Unsupported? {
      ScheduleCounts(w.s, r, id);
    }
  }

  lemma {:induction false} DueOcc(ops: map<string, Op>, clock: string -> int, ids: seq<string>, id: string)
    ensures Occ(Due(ops, clock, ids), id) == if IsDue(ops, clock, id) then Occ(ids, id) else 0
  {
    if ids == [] {
    } else {
      DueOcc(ops, clock, ids[1..], id);
      OccAppend([ids[0]], Due(ops, clock, ids[1..]), id);
      assert [ids[0]][1..] == [] && [] + Due(ops, clock, ids[1..]) == Due(ops, clock, ids[1..]);
    }
  }

  /** How a tick moves one operation. */
  lemma TickCounts(w: World, clock: string -> int, id: string)
    requires Positions(w)
    ensures var s, t := w.s, Step(w, Ticked(clock)).s;
            var reached := multiset(Reached(s.wheels, 0))[id];
            && Waiting(t.wheels, id) == Waiting(s.wheels, id) - reached
            && t.inFlight[id] == s.inFlight[id] + (if IsDue(s.ops, clock, id) then reached else 0)
            && Step(w, Ticked(clock)).executed[id] == w.executed[id] + (if IsDue(s.ops, clock, id) then reached else 0)
  {
    var reached := Reached(w.s.wheels, 0);
    AdvanceTakes(w.s.wheels, 0, id);
    OccIsMultiplicity(reached, id);
    DueOcc(w.s.ops, clock, reached, id);
    OccIsMultiplicity(Due(w.s.ops, clock, reached), id);
  }

  /** A tick strands an operation exactly when it reaches it and the clock has not passed its due time. */
  lemma StrandedTick(w: World, clock: string -> int, id: string)
    requires Sound(w)
    ensures Stranded(Step(w, Ticked(clock)), id) <==> Stranded(w, id) || Drops(w, Ticked(clock), id)
    ensures Stranded(w, id) ==> Step(w, Ticked(clock)).executed[id] == w.executed[id]
  {
    TickCounts(w, clock, id);
    assert InOnePlaceFor(w, id);
    assert id in Reached(w.s.wheels, 0) <==> multiset(Reached(w.s.wheels, 0))[id] > 0;
  }

  lemma StrandedComplete(w: World, done: string, placedAt: int, id: string)
    requires Sound(w) && CanComplete(w.s, done, placedAt)
    ensures Stranded(Step(w, Completed(done, placedAt)), id) <==> Stranded(w, id)
  {
    CompleteCounts(w.s, done, placedAt, id);
    assert InOnePlaceFor(w, id);
  }

  /** An event leaves an operation stranded exactly when it was before or the event drops it. */
  lemma StrandsExactly(w: World, e: Event, id: string)
    requires Sound(w) && Enabled(w, e)
    ensures Stranded(Step(w, e), id) <==> Stranded(w, id) || Drops(w, e, id)
    ensures Stranded(w, id) ==> Step(w, e).executed[id] == w.executed[id]
  {
    match e
    case Scheduled(r) => StrandedSchedule(w, r, id);
    case Ticked(clock) => StrandedTick(w, clock, id);
    case Completed(done, placedAt) => StrandedComplete(w, done, placedAt, id);
  }

  /** Some event of the run drops `id`. */
  ghost predicate EverDrops(w: World, events: seq<Event>, id: string)
    requires Possible(w, events)
    decreases |events|
  {
    events != [] && (Drops(w, events[0], id) || EverDrops(Step(w, events[0]), events[1..], id))
  }

  lemma {:induction false} StrandedFrom(w: World, events: seq<Event>, id: string)
    requires Sound(w) && Possible(w, events)
    ensures Stranded(Run(w, events), id) <==> Stranded(w, id) || EverDrops(w, events, id)
    ensures Stranded(w, id) ==> Run(w, events).executed[id] == w.executed[id]
    decreases |events|
  {
    if events == [] {
    } else {
      StepSound(w, events[0]);
      StrandsExactly(w, events[0], id);
      StrandedFrom(Step(w, events[0]), events[1..], id);
    }
  }

  /**
   In every run of a new scheduler the stranded operations are exactly those that some tick reached
   before their time; each of them stays registered for ever and never runs again.
   */
  lemma StrandedExactlyWhenDropped(before: seq<Event>, after: seq<Event>, id: string)
    requires Possible(Open(), before) && Possible(Run(Open(), before), after)
    ensures Stranded(Run(Open(), before), id) <==> EverDrops(Open(), before, id)
    ensures var w, v := Run(Open(), before), Run(Run(Open(), before), after);
            Stranded(w, id) ==> Stranded(v, id) && v.executed[id] == w.executed[id]
  {
    OpenSound();
    NothingWaits(id);
    StrandedFrom(Open(), before, id);
    SoundFromStart(before);
    StrandedFrom(Run(Open(), before), after, id);
  }

  lemma FateWhenHit(w: World, clock: string -> int, id: string, j: nat, slot: nat)
    requires Sound(w) && Sits(w.s.wheels, id, j, slot) && Hits(w.ticks + 1, j, slot)
    ensures Enabled(w, Ticked(clock)) && id in w.s.ops
    ensures w.s.ops[id].nextRun < clock(id) <==> Step(w, Ticked(clock)).s.inFlight[id] > 0
    ensures w.s.ops[id].nextRun < clock(id) <==> !Stranded(Step(w, Ticked(clock)), id)
  {
    ReachedOnce(w, id, j, slot);
    SitsWaits(w.s.wheels, id, j, slot);
    assert InOnePlaceFor(w, id);
    StrandedTick(w, clock, id);
    TickCounts(w, clock, id);
  }

  /**
   The fate of a placement: the tick that first moves its wheel to its slot starts it if the clock
   has passed its due time by then, and strands it otherwise.
   */
  lemma FateAtFirstHit(w: World, events: seq<Event>, clock: string -> int, id: string, j: nat, slot: nat)
    requires Sound(w) && Possible(w, events) && Sits(w.s.wheels, id, j, slot)
    requires IsFirstHit(w.ticks, j, slot, Run(w, events).ticks + 1)
    ensures var v := Run(w, events);
            && Enabled(v, Ticked(clock)) && id in v.s.ops
            && (v.s.ops[id].nextRun < clock(id) <==> Step(v, Ticked(clock)).s.inFlight[id] > 0)
            && (v.s.ops[id].nextRun < clock(id) <==> !Stranded(Step(v, Ticked(clock)), id))
  {
    ReachedAtFirstHit(w, events, id, j, slot, Run(w, events).ticks + 1);
    FateWhenHit(Run(w, events), clock, id, j, slot);
  }

  const SOON := Request(Once, MILLISECOND, 0, 0, 0, 0)

  lemma SoonSits()
    ensures CanSchedule(Start(), SOON) && Sits(Schedule(Start(), SOON).wheels, OpId(0), 0, 1)
  {
    ShortDelayLands(NewWheels(), MILLISECOND);
    PlacedSits(NewWheels(), MILLISECOND, OpId(0));
  }

  /** A delay under one second goes to the slot of the first wheel that counts its milliseconds. */
  lemma ShortDelayLands(ws: seq<Wheel>, delay: nat)
    requires Layout(ws) && delay < SECOND
    ensures Placeable(ws, delay) && TargetFrom(ws, delay, 0) == 0 && SlotIndex(ws[0], delay) == delay / MILLISECOND
  {
    PlacementBounds(ws, delay);
  }

  /** The scheduler after one operation was scheduled one millisecond ahead. */
  ghost predicate SoonWaits(w: World) {
    && Sound(w) && w.ticks == 0 && Sits(w.s.wheels, OpId(0), 0, 1)
    && OpId(0) in w.s.ops && w.s.ops[OpId(0)].nextRun == MILLISECOND
  }

  lemma SoonScheduled()
    ensures Enabled(Open(), Scheduled(SOON)) && SoonWaits(Step(Open(), Scheduled(SOON)))
  {
    OpenSound();
    SoonSits();
    StepSound(Open(), Scheduled(SOON));
  }

  lemma SoonStrands(w: World, clock: string -> int)
    requires SoonWaits(w) && clock(OpId(0)) <= MILLISECOND
    ensures Enabled(w, Ticked(clock)) && Stranded(Step(w, Ticked(clock)), OpId(0))
  {
    FateWhenHit(w, clock, OpId(0), 0, 1);
  }

  /** One millisecond ahead on a new scheduler: the first tick reaches it, too early if the clock is punctual. */
  lemma PunctualTickStrands(clock: string -> int)
    requires clock(OpId(0)) <= MILLISECOND
    ensures Enabled(Open(), Scheduled(SOON)) && Enabled(Step(Open(), Scheduled(SOON)), Ticked(clock))
    ensures Stranded(Step(Step(Open(), Scheduled(SOON)), Ticked(clock)), OpId(0))
  {
    SoonScheduled();
    SoonStrands(Step(Open(), Scheduled(SOON)), clock);
  }
}

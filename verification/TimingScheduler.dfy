/** The scheduler's methods, proved against the transitions of module `Scheduler`. */
module TimingScheduler {
  import opened Wrappers
  import opened Wheels
  import opened S = Scheduler

  class Timing {
    var wheels: seq<Wheel>
    var operations: map<string, Op>
    var nextOpId: nat
    var totalOperations: int
    var activeOperations: int
    var completedOperations: int
    var inFlight: multiset<string>

    ghost function State(): Sched
      reads this
    {
      Sched(wheels, operations, nextOpId, totalOperations, activeOperations, completedOperations, inFlight)
    }

    constructor ()
      ensures State() == Start()
    {
      wheels := NewWheels();
      operations, nextOpId := map[], 0;
      totalOperations, activeOperations, completedOperations := 0, 0, 0;
      inFlight := multiset{};
    }

    /** `scheduleOperation`: pick the first wheel that covers the delay, else the last one. */
    method Place(id: string, delay: int)
      requires ValidWheels(wheels) && wheels != [] && Placeable(wheels, delay)
      modifies this`wheels
      ensures wheels == Put(old(wheels), delay, id)
    {
      var target := |wheels| - 1;
      var i := 0;
      while i < |wheels|
        invariant 0 <= i <= |wheels|
        invariant forall j :: 0 <= j < i ==> delay >= Span(wheels[j])
        invariant i < |wheels| ==> TargetFrom(wheels, delay, 0) == TargetFrom(wheels, delay, i)
        invariant i == |wheels| ==> TargetFrom(wheels, delay, 0) == |wheels| - 1
        invariant target == |wheels| - 1
      {
        if delay < Span(wheels[i]) {
          target := i;
          break;
        }
        i := i + 1;
      }
      assert target == TargetFrom(wheels, delay, 0);
      var w := wheels[target];
      var slot := SlotIndex(w, delay);
      wheels := wheels[target := w.(slots := w.slots[slot := w.slots[slot] + [id]])];
    }

    method ScheduleOperation(r: Request) returns (id: Option<string>)
      requires CanSchedule(State(), r)
      modifies this
      ensures State() == Schedule(old(State()), r)
      ensures id == if r.kind.Unsupported? then None else Some(OpId(old(nextOpId)))
    {
      var opId := OpId(nextOpId);
      nextOpId := nextOpId + 1;
      var nextRun;
      match r.kind {
        case Once => nextRun := r.runAt;
        case Repeating => nextRun := r.now + r.interval;
        case Cron => nextRun := r.now + MINUTE;
        case Unsupported => return None;
      }
      nextRun := nextRun + r.jitter;
      operations := operations[opId := Op(r.kind, r.interval, nextRun, 0, 0)];
      totalOperations := totalOperations + 1;
      activeOperations := activeOperations + 1;
      Place(opId, nextRun - r.placedAt);
      return Some(opId);
    }

    /** The execution loop over one slot. */
    method ExecuteSlot(slot: seq<string>, clock: string -> int)
      modifies this`inFlight
      ensures inFlight == old(inFlight) + multiset(Due(operations, clock, slot))
    {
      for k := 0 to |slot|
        invariant inFlight + multiset(Due(operations, clock, slot[k..])) == old(inFlight) + multiset(Due(operations, clock, slot))
      {
        DueFrom(operations, clock, slot, k);
        if slot[k] in operations && operations[slot[k]].nextRun < clock(slot[k]) {
          inFlight := inFlight + multiset{slot[k]};
        }
      }
    }

    /** `advanceWheel`, cascading into the next wheel when this one wraps. */
    method AdvanceWheel(i: nat, clock: string -> int)
      requires ValidWheels(wheels) && i < |wheels|
      modifies this`wheels, this`inFlight
      ensures wheels == Advance(old(wheels), i)
      ensures inFlight == old(inFlight) + multiset(Due(operations, clock, Reached(old(wheels), i)))
      decreases |wheels| - i
    {
      ReachedDue(operations, clock, wheels, i);
      TurnWheel(i, clock);
      if wheels[i].currentSlot == 0 && i + 1 < |wheels| {
        ghost var here := multiset(Due(operations, clock, old(wheels)[i].slots[old(wheels)[i].Next()]));
        RegroupBags(old(inFlight), here, multiset(Due(operations, clock, Reached(wheels, i + 1))));
        AdvanceWheel(i + 1, clock);
      }
    }

    /** Move one wheel on, run what is due in the slot reached, and clear that slot. */
    method TurnWheel(i: nat, clock: string -> int)
      requires ValidWheels(wheels) && i < |wheels|
      modifies this`wheels, this`inFlight
      ensures wheels == old(wheels)[i := Turn(old(wheels)[i])]
      ensures inFlight == old(inFlight) + multiset(Due(operations, clock, old(wheels)[i].slots[old(wheels)[i].Next()]))
    {
      var w := wheels[i];
      var next := (w.currentSlot + 1) % |w.slots|;
      ExecuteSlot(w.slots[next], clock);
      wheels := wheels[i := w.(currentSlot := next, slots := w.slots[next := []])];
    }

    method Tick(clock: string -> int)
      requires ValidWheels(wheels) && wheels != []
      modifies this`wheels, this`inFlight
      ensures State() == S.Tick(old(State()), clock)
    {
      AdvanceWheel(0, clock);
    }

    /** What a handler goroutine does under the lock once its handler returns. */
    method FinishOperation(id: string, placedAt: int)
      requires CanComplete(State(), id, placedAt)
      modifies this
      ensures State() == Complete(old(State()), id, placedAt)
    {
      var op, again := CountRun(operations[id]);
      inFlight := inFlight - multiset{id};
      completedOperations := completedOperations + 1;
      if again {
        Reschedule(id, op, placedAt);
      } else {
        Unregister(id);
      }
    }

    method Unregister(id: string)
      modifies this`operations, this`activeOperations
      ensures operations == old(operations) - {id} && activeOperations == old(activeOperations) - 1
    {
      operations := operations - {id};
      activeOperations := activeOperations - 1;
    }

    static method CountRun(before: Op) returns (op: Op, again: bool)
      ensures (op, again) == AfterRun(before)
    {
      op, again := before.(runCount := before.runCount + 1), false;
      if op.kind.Repeating? && (op.maxRuns == 0 || op.runCount < op.maxRuns) {
        op, again := op.(nextRun := op.nextRun + op.interval), true;
      } else if op.kind.Cron? {
        op, again := op.(nextRun := op.nextRun + MINUTE), true;
      }
    }

    method Reschedule(id: string, op: Op, placedAt: int)
      requires ValidWheels(wheels) && wheels != [] && Placeable(wheels, op.nextRun - placedAt)
      modifies this`wheels, this`operations
      ensures operations == old(operations)[id := op]
      ensures wheels == Put(old(wheels), op.nextRun - placedAt, id)
    {
      operations := operations[id := op];
      Place(id, op.nextRun - placedAt);
    }
  }

  lemma DueFrom(ops: map<string, Op>, clock: string -> int, slot: seq<string>, k: nat)
    requires k < |slot|
    ensures multiset(Due(ops, clock, slot[k..]))
         == (if IsDue(ops, clock, slot[k]) then multiset{slot[k]} else multiset{}) + multiset(Due(ops, clock, slot[k + 1..]))
  {
    assert slot[k..][1..] == slot[k + 1..];
  }

  lemma RegroupBags<T>(a: multiset<T>, b: multiset<T>, c: multiset<T>)
    ensures (a + b) + c == a + (b + c)
  {
  }

  /** The due operations a cascade reaches: those of this slot, then those of the wheels after it. */
  lemma ReachedDue(ops: map<string, Op>, clock: string -> int, ws: seq<Wheel>, i: nat)
    requires ValidWheels(ws) && i < |ws|
    ensures var here := multiset(Due(ops, clock, ws[i].slots[ws[i].Next()]));
            multiset(Due(ops, clock, Reached(ws, i))) ==
              if ws[i].Next() == 0 && i + 1 < |ws| then here + multiset(Due(ops, clock, Reached(ws[i := Turn(ws[i])], i + 1)))
              else here
  {
    var slot := ws[i].slots[ws[i].Next()];
    if ws[i].Next() == 0 && i + 1 < |ws| {
      TurnElsewhere(ws, i, i + 1);
      DueAppend(ops, clock, slot, Reached(ws, i + 1));
    } else {
      assert slot + [] == slot;
    }
  }

  lemma {:induction false} DueAppend(ops: map<string, Op>, clock: string -> int, a: seq<string>, b: seq<string>)
    ensures Due(ops, clock, a + b) == Due(ops, clock, a) + Due(ops, clock, b)
  {
    if a == [] {
      assert a + b == b;
    } else {
      assert (a + b)[1..] == a[1..] + b;
      DueAppend(ops, clock, a[1..], b);
    }
  }
}

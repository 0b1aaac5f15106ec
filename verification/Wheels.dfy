/**
 The hierarchical timing wheel: four linked wheels of 1000 milliseconds, 60 seconds, 60 minutes
 and 24 hours.  Each holds a ring of slots; a wheel that returns to slot 0 advances the next one.
 */
module Wheels {
  const MILLISECOND := 1_000_000
  const SECOND := 1000 * MILLISECOND
  const MINUTE := 60 * SECOND
  const HOUR := 60 * MINUTE

  /** One wheel: its ring of slots, and where it stands.  Slots hold operation IDs. */
  datatype Wheel = Wheel(slotSize: nat, currentSlot: nat, slots: seq<seq<string>>) {
    function SlotCount(): nat {
      |slots|
    }

    function Next(): nat
      requires slots != []
    {
      (currentSlot + 1) % |slots|
    }
  }

  ghost predicate ValidWheel(w: Wheel) {
    w.slots != [] && w.currentSlot < |w.slots| && w.slotSize > 0
  }

  ghost predicate ValidWheels(ws: seq<Wheel>) {
    forall i :: 0 <= i < |ws| ==> ValidWheel(ws[i])
  }

  function EmptyWheel(count: nat, size: nat): Wheel {
    Wheel(size, 0, seq(count, _ => []))
  }

  /** The layout `NewScheduler` builds. */
  function NewWheels(): seq<Wheel> {
    [EmptyWheel(1000, MILLISECOND), EmptyWheel(60, SECOND), EmptyWheel(60, MINUTE), EmptyWheel(24, HOUR)]
  }

  ghost predicate Layout(ws: seq<Wheel>) {
    && |ws| == 4 && ValidWheels(ws)
    && ws[0].SlotCount() == 1000 && ws[1].SlotCount() == 60 && ws[2].SlotCount() == 60 && ws[3].SlotCount() == 24
    && ws[0].slotSize == MILLISECOND && ws[1].slotSize == SECOND && ws[2].slotSize == MINUTE && ws[3].slotSize == HOUR
  }

  // ---------------------------------------------------------------- advancing

  /** One step of a wheel: move on and clear the slot reached. */
  function Turn(w: Wheel): Wheel
    requires ValidWheel(w)
  {
    w.(currentSlot := w.Next(), slots := w.slots[w.Next() := []])
  }

  /** `advanceWheel` on the positions and slots, cascading while wheels complete their cycle. */
  ghost function Advance(ws: seq<Wheel>, i: nat): (r: seq<Wheel>)
    requires ValidWheels(ws) && i < |ws|
    ensures ValidWheels(r) && |r| == |ws|
    decreases |ws| - i
  {
    var turned := ws[i := Turn(ws[i])];
    if ws[i].Next() == 0 && i + 1 < |ws| then Advance(turned, i + 1) else turned
  }

  /** The operations found in the slots a cascade reaches, in the order it reaches them. */
  ghost function Reached(ws: seq<Wheel>, i: nat): seq<string>
    requires ValidWheels(ws) && i < |ws|
    decreases |ws| - i
  {
    ws[i].slots[ws[i].Next()]
    + (if ws[i].Next() == 0 && i + 1 < |ws| then Reached(ws, i + 1) else [])
  }

  /** How many wheels a cascade advances. */
  ghost function Calls(ws: seq<Wheel>, i: nat): nat
    requires ValidWheels(ws) && i < |ws|
    decreases |ws| - i
  {
    1 + (if ws[i].Next() == 0 && i + 1 < |ws| then Calls(ws, i + 1) else 0)
  }

  /** A cascade changes no wheel before the one it starts at, and no ring length or slot size. */
  lemma {:induction false} AdvanceFrame(ws: seq<Wheel>, i: nat)
    requires ValidWheels(ws) && i < |ws|
    ensures forall j :: 0 <= j < i ==> Advance(ws, i)[j] == ws[j]
    ensures forall j :: 0 <= j < |ws| ==>
              Advance(ws, i)[j].SlotCount() == ws[j].SlotCount() && Advance(ws, i)[j].slotSize == ws[j].slotSize
    decreases |ws| - i
  {
    if ws[i].Next() == 0 && i + 1 < |ws| {
      AdvanceFrame(ws[i := Turn(ws[i])], i + 1);
    }
  }

  lemma {:induction false} TurnElsewhere(ws: seq<Wheel>, i: nat, j: nat)
    requires ValidWheels(ws) && i < j < |ws|
    ensures Reached(ws[i := Turn(ws[i])], j) == Reached(ws, j)
    ensures Calls(ws[i := Turn(ws[i])], j) == Calls(ws, j)
    decreases |ws| - j
  {
    if j + 1 >= |ws| {
    } else {
      TurnElsewhere(ws, i, j + 1);
    }
  }

  // ---------------------------------------------------------------- the odometer

  /** From wheel `i` on, the positions are the mixed-radix digits of `t`. */
  ghost predicate Odometer(ws: seq<Wheel>, i: nat, t: nat)
    requires ValidWheels(ws)
    decreases |ws| - i
  {
    i < |ws| ==> ws[i].currentSlot == t % |ws[i].slots| && Odometer(ws, i + 1, t / |ws[i].slots|)
  }

  /** Advances of wheel `i` and all later ones when wheel `i` has advanced `t` times. */
  ghost function TotalCalls(ws: seq<Wheel>, i: nat, t: nat): nat
    requires ValidWheels(ws)
    decreases |ws| - i
  {
    if i >= |ws| then 0 else t + TotalCalls(ws, i + 1, t / |ws[i].slots|)
  }

  lemma MulMono(a: nat, b: nat, c: nat)
    requires a <= b
    ensures a * c <= b * c
  {
  }

  /** Quotient and remainder are unique. */
  lemma UniqueQuotient(p: nat, s: nat, q: nat, r: nat, c: nat)
    requires p * c + s == q * c + r && s < c && r < c
    ensures p == q && s == r
  {
    if p < q {
      MulMono(p + 1, q, c);
    } else if q < p {
      MulMono(q + 1, p, c);
    }
  }

  lemma Quotients(q: nat, r: nat, c: nat)
    requires r < c
    ensures (q * c + r) / c == q && (q * c + r) % c == r
  {
    var t := q * c + r;
    assert t == (t / c) * c + t % c;
    UniqueQuotient(t / c, t % c, q, r, c);
  }

  lemma Carry(t: nat, c: nat)
    requires c > 0
    ensures (t % c + 1) % c == (t + 1) % c
    ensures (t + 1) / c == if (t + 1) % c == 0 then t / c + 1 else t / c
  {
    var q, r := t / c, t % c;
    assert t == q * c + r;
    if r + 1 == c {
      assert t + 1 == (q + 1) * c + 0;
      Quotients(q + 1, 0, c);
    } else {
      assert t + 1 == q * c + (r + 1);
      Quotients(q, r + 1, c);
      Quotients(0, r + 1, c);
    }
  }

  lemma {:induction false} OdometerElsewhere(ws: seq<Wheel>, vs: seq<Wheel>, i: nat, t: nat)
    requires ValidWheels(ws) && ValidWheels(vs) && |vs| == |ws|
    requires forall j :: i <= j < |ws| ==> vs[j] == ws[j]
    ensures Odometer(vs, i, t) == Odometer(ws, i, t)
    decreases |ws| - i
  {
    if i >= |ws| {
    } else {
      OdometerElsewhere(ws, vs, i + 1, t / |ws[i].slots|);
    }
  }

  /** One cascade adds one to the odometer. */
  lemma {:induction false} AdvanceCounts(ws: seq<Wheel>, i: nat, t: nat)
    requires ValidWheels(ws) && i < |ws| && Odometer(ws, i, t)
    ensures Odometer(Advance(ws, i), i, t + 1)
    decreases |ws| - i
  {
    var c, turned := |ws[i].slots|, ws[i := Turn(ws[i])];
    Carry(t, c);
    OdometerElsewhere(ws, turned, i + 1, t / c);
    if ws[i].Next() == 0 && i + 1 < |ws| {
      AdvanceCounts(turned, i + 1, t / c);
      AdvanceFrame(turned, i + 1);
      assert Advance(ws, i)[i] == turned[i];
    }
  }

  /** The number of wheels advanced is the growth of the total. */
  lemma {:induction false} CallsCount(ws: seq<Wheel>, i: nat, t: nat)
    requires ValidWheels(ws) && i < |ws| && Odometer(ws, i, t)
    ensures TotalCalls(ws, i, t + 1) == TotalCalls(ws, i, t) + Calls(ws, i)
    decreases |ws| - i
  {
    var c := |ws[i].slots|;
    Carry(t, c);
    if ws[i].Next() == 0 && i + 1 < |ws| {
      CallsCount(ws, i + 1, t / c);
    }
  }

  // ---------------------------------------------------------------- which tick reaches which slot

  /** The cascade in which wheel `i` makes its `t`-th advance moves wheel `j` to `slot`. */
  ghost predicate Reaches(ws: seq<Wheel>, i: nat, t: nat, j: nat, slot: nat)
    requires ValidWheels(ws)
    decreases |ws| - i
  {
    && i < |ws|
    && if i == j then t % |ws[i].slots| == slot
       else t % |ws[i].slots| == 0 && Reaches(ws, i + 1, t / |ws[i].slots|, j, slot)
  }

  lemma {:induction false} ReachesElsewhere(ws: seq<Wheel>, i: nat, k: nat, t: nat, j: nat, slot: nat)
    requires ValidWheels(ws) && i < |ws| && i < k
    ensures Reaches(ws[i := Turn(ws[i])], k, t, j, slot) == Reaches(ws, k, t, j, slot)
    decreases |ws| - k
  {
    if k >= |ws| {
    } else {
      ReachesElsewhere(ws, i, k + 1, t / |ws[k].slots|, j, slot);
    }
  }

  /** The wheel a cascade starts at moves on, whatever the later wheels do. */
  lemma FirstTurns(ws: seq<Wheel>, i: nat)
    requires ValidWheels(ws) && i < |ws|
    ensures Advance(ws, i)[i] == Turn(ws[i])
    ensures forall id :: id in ws[i].slots[ws[i].Next()] ==> id in Reached(ws, i)
  {
    if ws[i].Next() == 0 && i + 1 < |ws| {
      AdvanceFrame(ws[i := Turn(ws[i])], i + 1);
    }
  }

  /** A cascade empties exactly the slots it reaches, and hands over what was in them. */
  lemma {:induction false} AdvanceSlot(ws: seq<Wheel>, i: nat, t: nat, j: nat, slot: nat)
    requires ValidWheels(ws) && i <= j < |ws| && slot < |ws[j].slots| && Odometer(ws, i, t)
    ensures |Advance(ws, i)[j].slots| == |ws[j].slots|
    ensures Advance(ws, i)[j].slots[slot] == if Reaches(ws, i, t + 1, j, slot) then [] else ws[j].slots[slot]
    ensures Reaches(ws, i, t + 1, j, slot) ==> forall id :: id in ws[j].slots[slot] ==> id in Reached(ws, i)
    decreases |ws| - i
  {
    var c := |ws[i].slots|;
    Carry(t, c);
    if i == j {
      FirstTurns(ws, i);
    } else if ws[i].Next() == 0 {
      var turned := ws[i := Turn(ws[i])];
      OdometerElsewhere(ws, turned, i + 1, t / c);
      ReachesElsewhere(ws, i, i + 1, t / c + 1, j, slot);
      AdvanceSlot(turned, i + 1, t / c, j, slot);
      TurnElsewhere(ws, i, i + 1);
    }
  }

  /** Ticks between two advances of wheel `j`, and its number of slots. */
  function Period(j: nat): (r: nat)
    ensures r > 0
  {
    if j == 0 then 1 else if j == 1 then 1000 else if j == 2 then 60_000 else 3_600_000
  }

  function Ring(j: nat): (r: nat)
    ensures r > 0
  {
    if j == 0 then 1000 else if j == 3 then 24 else 60
  }

  /** Tick number `t` moves wheel `j` to `slot`. */
  predicate Hits(t: nat, j: nat, slot: nat) {
    t % Period(j) == 0 && t / Period(j) % Ring(j) == slot
  }

  lemma HitsExactly(ws: seq<Wheel>, t: nat, j: nat, slot: nat)
    requires Layout(ws) && j < 4
    ensures Reaches(ws, 0, t, j, slot) <==> Hits(t, j, slot)
  {
    assert Reaches(ws, 3, t / 1000 / 60 / 60, 3, slot) <==> t / 1000 / 60 / 60 % 24 == slot;
    Divisions(t);
    if j == 1 {
      assert Reaches(ws, 1, t / 1000, 1, slot) <==> t / 1000 % 60 == slot;
    } else if j == 2 {
      assert Reaches(ws, 2, t / 1000 / 60, 2, slot) <==> t / 1000 / 60 % 60 == slot;
      assert Reaches(ws, 1, t / 1000, 2, slot) <==> t / 1000 % 60 == 0 && t / 1000 / 60 % 60 == slot;
    } else if j == 3 {
      assert Reaches(ws, 2, t / 1000 / 60, 3, slot) <==>
             t / 1000 / 60 % 60 == 0 && t / 1000 / 60 / 60 % 24 == slot;
      assert Reaches(ws, 1, t / 1000, 3, slot) <==>
             t / 1000 % 60 == 0 && t / 1000 / 60 % 60 == 0 && t / 1000 / 60 / 60 % 24 == slot;
    }
  }

  /** `hit` is the first tick after tick `t` that moves wheel `j` to `slot`. */
  ghost predicate IsFirstHit(t: nat, j: nat, slot: nat, hit: nat) {
    t < hit && Hits(hit, j, slot) && forall u: nat :: t < u < hit ==> !Hits(u, j, slot)
  }

  function FirstHit(t: nat, j: nat, slot: nat): nat
    requires slot < Ring(j)
  {
    var next := t / Period(j) + 1;
    Period(j) * (next + (slot - next) % Ring(j))
  }

  lemma FirstHitExactly(t: nat, j: nat, slot: nat)
    requires j < 4 && slot < Ring(j)
    ensures IsFirstHit(t, j, slot, FirstHit(t, j, slot))
  {
    var p, c, next := Period(j), Ring(j), t / Period(j) + 1;
    var wait := (slot - next) % c;
    var r := FirstHit(t, j, slot);
    Quotients(next + wait, 0, p);
    assert r == (next + wait) * p;
    assert t < next * p;
    MulMono(next, next + wait, p);
    SlotComesRound(next, c, slot, wait);
    forall u: nat | t < u < r ensures !Hits(u, j, slot) {
      if Hits(u, j, slot) {
        NoEarlierHit(t, u, p, c, slot);
      }
    }
  }

  lemma SlotComesRound(next: nat, c: nat, slot: nat, wait: nat)
    requires slot < c && wait == (slot - next) % c
    ensures (next + wait) % c == slot
  {
    var k := (slot - next) / c;
    assert slot - next == k * c + wait;
    assert k <= 0;
    assert next + wait == (-k) * c + slot;
    Quotients(-k, slot, c);
  }

  /** Between `t` and the first hit no multiple of the period has the right remainder. */
  lemma NoEarlierHit(t: nat, u: nat, p: nat, c: nat, slot: nat)
    requires p > 0 && slot < c && t < u && u % p == 0 && u / p % c == slot
    ensures u >= p * (t / p + 1 + (slot - (t / p + 1)) % c)
  {
    var next, m := t / p + 1, u / p;
    assert u == m * p;
    assert t == (t / p) * p + t % p;
    if m < next {
      MulMono(m, t / p, p);
    }
    var wait := (slot - next) % c;
    RoundIsLeast(next, m, c, slot, wait);
    MulMono(next + wait, m, p);
  }

  lemma RoundIsLeast(next: nat, m: nat, c: nat, slot: nat, wait: nat)
    requires slot < c && next <= m && m % c == slot && wait == (slot - next) % c
    ensures next + wait <= m
  {
    SlotComesRound(next, c, slot, wait);
    var a, b := m / c, (next + wait) / c;
    LowerRound(a, b, c, m - a * c, next + wait - m);
  }

  /** Of two numbers with one remainder, the one less than a round ahead is not ahead. */
  lemma LowerRound(a: nat, b: nat, c: nat, slot: nat, ahead: int)
    requires b * c + slot == a * c + slot + ahead && ahead < c
    ensures ahead <= 0
  {
    assert (a + 1) * c == a * c + c;
    MulCancel(b, a + 1, c);
    MulMono(b, a, c);
  }

  lemma MulCancel(a: nat, b: nat, c: nat)
    requires a * c < b * c
    ensures a < b
  {
    if b <= a {
      MulMono(b, a, c);
    }
  }

  // ---------------------------------------------------------------- whole runs of ticks

  ghost function Ticks(ws: seq<Wheel>, n: nat): (r: seq<Wheel>)
    requires ValidWheels(ws) && ws != []
    ensures ValidWheels(r) && |r| == |ws|
  {
    if n == 0 then ws else Advance(Ticks(ws, n - 1), 0)
  }

  ghost function CallsIn(ws: seq<Wheel>, n: nat): nat
    requires ValidWheels(ws) && ws != []
  {
    if n == 0 then 0 else CallsIn(ws, n - 1) + Calls(Ticks(ws, n - 1), 0)
  }

  lemma {:induction false} TicksLayout(ws: seq<Wheel>, n: nat)
    requires Layout(ws)
    ensures Layout(Ticks(ws, n))
  {
    if n == 0 {
    } else {
      TicksLayout(ws, n - 1);
      AdvanceFrame(Ticks(ws, n - 1), 0);
    }
  }

  lemma {:induction false} TicksOdometer(ws: seq<Wheel>, n: nat)
    requires Layout(ws) && Odometer(ws, 0, 0)
    ensures Odometer(Ticks(ws, n), 0, n)
    ensures CallsIn(ws, n) == FourTotals(n)
  {
    if n == 0 {
    } else {
      var before := Ticks(ws, n - 1);
      TicksOdometer(ws, n - 1);
      TicksLayout(ws, n - 1);
      AdvanceCounts(before, 0, n - 1);
      CallsCount(before, 0, n - 1);
      TotalIsFour(before, n - 1);
      TotalIsFour(before, n);
    }
  }

  function FourTotals(n: nat): nat {
    n + n / 1000 + n / 1000 / 60 + n / 1000 / 60 / 60
  }

  lemma TotalIsFour(ws: seq<Wheel>, n: nat)
    requires Layout(ws)
    ensures TotalCalls(ws, 0, n) == FourTotals(n)
  {
    assert TotalCalls(ws, 3, n / 1000 / 60 / 60) == n / 1000 / 60 / 60;
    assert TotalCalls(ws, 2, n / 1000 / 60) == n / 1000 / 60 + n / 1000 / 60 / 60;
    assert TotalCalls(ws, 1, n / 1000) == n / 1000 + (n / 1000 / 60 + n / 1000 / 60 / 60);
  }

  lemma Divisions(n: nat)
    ensures n / 1000 / 60 == n / 60_000 && n / 1000 / 60 / 60 == n / 3_600_000
  {
  }

  /**
   After `n` ticks of a new scheduler the four positions are the digits of `n` in bases 1000, 60,
   60 and 24, and wheels have been advanced n + n/1000 + n/60000 + n/3600000 times.
   */
  lemma WheelOdometer(n: nat)
    ensures Layout(NewWheels())
    ensures var ws := Ticks(NewWheels(), n);
            && |ws| == 4
            && ws[0].currentSlot == n % 1000 && ws[1].currentSlot == n / 1000 % 60
            && ws[2].currentSlot == n / 60_000 % 60 && ws[3].currentSlot == n / 3_600_000 % 24
    ensures CallsIn(NewWheels(), n) == n + n / 1000 + n / 60_000 + n / 3_600_000
  {
    var ws := NewWheels();
    assert Odometer(ws, 4, 0) && Odometer(ws, 3, 0) && Odometer(ws, 2, 0) && Odometer(ws, 1, 0);
    TicksOdometer(ws, n);
    TicksLayout(ws, n);
    Divisions(n);
    ReadOdometer(Ticks(ws, n), n);
  }

  lemma ReadOdometer(ws: seq<Wheel>, n: nat)
    requires Layout(ws) && Odometer(ws, 0, n)
    ensures ws[0].currentSlot == n % 1000 && ws[1].currentSlot == n / 1000 % 60
    ensures ws[2].currentSlot == n / 1000 / 60 % 60 && ws[3].currentSlot == n / 1000 / 60 / 60 % 24
  {
    assert Odometer(ws, 1, n / 1000);
    assert Odometer(ws, 2, n / 1000 / 60);
    assert Odometer(ws, 3, n / 1000 / 60 / 60);
  }

  // ---------------------------------------------------------------- placement

  /** Go's truncating division and remainder, for a positive divisor. */
  function GoDiv(a: int, b: nat): int
    requires b > 0
  {
    if a >= 0 then a / b else -((-a) / b)
  }

  function GoMod(a: int, b: nat): int
    requires b > 0
  {
    if a >= 0 then a % b else -((-a) % b)
  }

  function Span(w: Wheel): nat {
    w.SlotCount() * w.slotSize
  }

  /** The first wheel from `i` on that covers the delay, or the last one. */
  function TargetFrom(ws: seq<Wheel>, delay: int, i: nat): (r: nat)
    requires i < |ws|
    ensures i <= r < |ws|
    ensures delay < Span(ws[r]) || r == |ws| - 1
    ensures forall j :: i <= j < r ==> delay >= Span(ws[j])
    decreases |ws| - i
  {
    if delay < Span(ws[i]) || i + 1 == |ws| then i else TargetFrom(ws, delay, i + 1)
  }

  function SlotIndex(w: Wheel, delay: int): int
    requires ValidWheel(w)
  {
    GoMod(GoDiv(delay, w.slotSize), w.SlotCount())
  }

  /** A negative slot index is a run-time panic. */
  predicate Placeable(ws: seq<Wheel>, delay: int)
    requires ValidWheels(ws) && ws != []
  {
    SlotIndex(ws[TargetFrom(ws, delay, 0)], delay) >= 0
  }

  function Put(ws: seq<Wheel>, delay: int, id: string): seq<Wheel>
    requires ValidWheels(ws) && ws != [] && Placeable(ws, delay)
  {
    var w := TargetFrom(ws, delay, 0);
    var slot := SlotIndex(ws[w], delay);
    ws[w := ws[w].(slots := ws[w].slots[slot := ws[w].slots[slot] + [id]])]
  }

  /** A delay inside the total span lands in the finest wheel that covers it, in the slot it falls into. */
  lemma PlacementBounds(ws: seq<Wheel>, delay: int)
    requires Layout(ws) && 0 <= delay < Span(ws[3])
    ensures var w := TargetFrom(ws, delay, 0);
            var slot := SlotIndex(ws[w], delay);
            && 0 <= slot < ws[w].SlotCount()
            && slot * ws[w].slotSize <= delay < (slot + 1) * ws[w].slotSize
            && (forall j :: 0 <= j < w ==> delay >= Span(ws[j]))
  {
    var w := TargetFrom(ws, delay, 0);
    InSlot(delay, ws[w].slotSize, ws[w].SlotCount());
  }

  lemma InSlot(delay: nat, size: nat, count: nat)
    requires size > 0 && count > 0 && delay < count * size
    ensures 0 <= delay / size < count && delay / size % count == delay / size
    ensures delay / size * size <= delay < (delay / size + 1) * size
  {
    var q := delay / size;
    assert delay == q * size + delay % size;
    if q >= count {
      MulMono(count, q, size);
    } else {
      Quotients(0, q, count);
    }
  }

  /**
   Placement is safe exactly when the due time is less than one millisecond past, or past by a
   number of whole milliseconds that is a multiple of 1000.
   */
  lemma PlaceableExactly(ws: seq<Wheel>, delay: int)
    requires Layout(ws)
    ensures Placeable(ws, delay) <==> delay > -MILLISECOND || (-delay) / MILLISECOND % 1000 == 0
  {
    var w := TargetFrom(ws, delay, 0);
    if delay < 0 {
      assert w == 0;
    } else {
      assert SlotIndex(ws[w], delay) >= 0;
    }
  }

  /** A placement is found in the slot it was computed for, and disturbs no other entry. */
  lemma PutSits(ws: seq<Wheel>, delay: int, id: string)
    requires ValidWheels(ws) && ws != [] && Placeable(ws, delay)
    ensures var j := TargetFrom(ws, delay, 0);
            id in Put(ws, delay, id)[j].slots[SlotIndex(ws[j], delay)]
  {
  }

  // ---------------------------------------------------------------- how long a placement waits

  /** Ticks between two visits of wheel `j` to the same slot. */
  function Round(j: nat): (r: nat)
    ensures r > 0
  {
    if j == 0 then 1000 else if j == 1 then 60_000 else if j == 2 then 3_600_000 else 86_400_000
  }

  /** Visits to a slot are a round apart. */
  lemma HitsOncePerRound(t: nat, j: nat, slot: nat)
    requires j < 4 && slot < Ring(j)
    ensures Hits(t, j, slot) <==> t % Round(j) == slot * Period(j)
  {
    var p, c := Period(j), Ring(j);
    var q := t / p;
    assert t == q * p + t % p;
    RoundSplits(q, t % p, p, c);
    assert p * c == Round(j);
    if Hits(t, j, slot) {
    } else if t % Round(j) == slot * p {
      UniqueQuotient(q % c, t % p, slot, 0, p);
    }
  }

  /** The remainder by a product, from the two remainders. */
  lemma RoundSplits(q: nat, r: nat, p: nat, c: nat)
    requires p > 0 && c > 0 && r < p
    ensures (q * p + r) % (p * c) == q % c * p + r
  {
    var m, s := q / c, q % c;
    assert q == m * c + s;
    MulMono(s + 1, c, p);
    assert q * p + r == m * (p * c) + (s * p + r) by {
      Regrouped(m, c, s, p);
    }
    Quotients(m, s * p + r, p * c);
  }

  lemma Regrouped(m: nat, c: nat, s: nat, p: nat)
    ensures (m * c + s) * p == m * (p * c) + s * p
  {
  }

  lemma SameResidue(a: nat, b: nat, n: nat, r: nat)
    requires n > 0 && a % n == r && b % n == r && a <= b < a + n
    ensures a == b
  {
    LowerRound(a / n, b / n, n, r, b - a);
  }

  /** Within one round, the first visit to a slot is the only one. */
  lemma WaitIsHit(t: nat, j: nat, slot: nat, ms: nat)
    requires j < 4 && slot < Ring(j)
    ensures FirstHit(t, j, slot) - t == ms <==> 1 <= ms <= Round(j) && Hits(t + ms, j, slot)
  {
    var first := FirstHit(t, j, slot);
    FirstHitExactly(t, j, slot);
    WithinRound(t, j, slot, first);
    if 1 <= ms <= Round(j) && Hits(t + ms, j, slot) {
      HitsOncePerRound(t + ms, j, slot);
      HitsOncePerRound(first, j, slot);
      SameResidue(first, t + ms, Round(j), slot * Period(j));
    }
  }

  lemma WithinRound(t: nat, j: nat, slot: nat, first: nat)
    requires j < 4 && slot < Ring(j) && IsFirstHit(t, j, slot, first)
    ensures first <= t + Round(j)
  {
    var n, r := Round(j), slot * Period(j);
    var wait := (r - (t + 1)) % n;
    SlotBelowRound(j, slot);
    SlotComesRound(t + 1, n, r, wait);
    HitsOncePerRound(t + 1 + wait, j, slot);
  }

  lemma SlotBelowRound(j: nat, slot: nat)
    requires j < 4 && slot < Ring(j)
    ensures slot * Period(j) < Round(j)
  {
  }

  lemma Shifted(x: nat, s: nat, n: nat)
    requires s < n
    ensures (x + s) % n == s <==> x % n == 0
  {
    var q := x / n;
    assert x == q * n + x % n;
    if x % n == 0 {
      Quotients(q, s, n);
    } else if (x + s) % n == s {
      var m := (x + s) / n;
      assert x == m * n + 0;
      Quotients(m, 0, n);
    }
  }

  /** The slot of a delay counts the periods of its wheel in it. */
  lemma SlotCountsPeriods(ws: seq<Wheel>, delay: nat)
    requires Layout(ws)
    ensures var j := TargetFrom(ws, delay, 0);
            SlotIndex(ws[j], delay) == delay / MILLISECOND / Period(j) % Ring(j)
  {
    var j := TargetFrom(ws, delay, 0);
    if j == 0 {
    } else if j == 1 {
      assert delay / SECOND == delay / MILLISECOND / 1000;
    } else if j == 2 {
      assert delay / MINUTE == delay / MILLISECOND / 60_000;
    } else {
      assert delay / HOUR == delay / MILLISECOND / 3_600_000;
    }
  }

  lemma HitInRound(t: nat, j: nat, q: nat, r: nat)
    requires j < 4 && q < Ring(j) && r < Period(j)
    ensures Hits(t + (q * Period(j) + r), j, q) <==> (t + r) % Round(j) == 0
  {
    HitsOncePerRound(t + (q * Period(j) + r), j, q);
    SlotBelowRound(j, q);
    Shifted(t + r, q * Period(j), Round(j));
  }

  lemma HitFullRound(t: nat, j: nat)
    requires j < 4
    ensures Hits(t + Round(j), j, 0) <==> t % Round(j) == 0
  {
    HitsOncePerRound(t + Round(j), j, 0);
    var q := t / Round(j);
    assert t + Round(j) == (q + 1) * Round(j) + t % Round(j);
    Quotients(q + 1, t % Round(j), Round(j));
  }

  lemma RoundIsFull(j: nat, ms: nat)
    requires j < 4 && ms <= Round(j)
    ensures ms < Round(j) ==> ms / Period(j) % Ring(j) == ms / Period(j) < Ring(j)
    ensures ms == Round(j) ==> ms / Period(j) % Ring(j) == 0 && ms % Period(j) == 0
  {
  }

  /** From which tick a wait of `ms` milliseconds ends on the slot that counts them. */
  lemma HitAfterDelay(t: nat, j: nat, ms: nat)
    requires j < 4 && ms <= Round(j)
    ensures Hits(t + ms, j, ms / Period(j) % Ring(j)) <==> (t + ms % Period(j)) % Round(j) == 0
  {
    RoundIsFull(j, ms);
    if ms < Round(j) {
      var q, r := ms / Period(j), ms % Period(j);
      assert ms == q * Period(j) + r;
      HitInRound(t, j, q, r);
    } else {
      HitFullRound(t, j);
    }
  }

  /**
   Slots are counted from slot 0, not from where the wheel stands.  A placement with any delay is
   waited for in exactly the milliseconds of that delay if and only if there is at least one, there
   are at most as many as the last wheel counts, and the wheel it is placed in is about to start
   its round when the part of the delay that the wheel does not count is over.
   */
  lemma WaitsExactly(ws: seq<Wheel>, t: nat, delay: nat)
    requires Layout(ws)
    ensures var j, ms := TargetFrom(ws, delay, 0), delay / MILLISECOND;
            FirstHit(t, j, SlotIndex(ws[j], delay)) - t == ms <==>
            1 <= ms <= Round(j) && (t + ms % Period(j)) % Round(j) == 0
  {
    var j, ms := TargetFrom(ws, delay, 0), delay / MILLISECOND;
    SlotCountsPeriods(ws, delay);
    WaitIsHit(t, j, SlotIndex(ws[j], delay), ms);
    if ms <= Round(j) {
      HitAfterDelay(t, j, ms);
    }
  }

  /** On a new scheduler a delay of 2500 milliseconds is cut to 2000; 500 before a full minute it is not. */
  lemma DelayCutShort(ws: seq<Wheel>)
    requires Layout(ws)
    ensures var delay := 2500 * MILLISECOND;
            && TargetFrom(ws, delay, 0) == 1 && SlotIndex(ws[1], delay) == 2
            && FirstHit(0, 1, 2) == 2000 && FirstHit(59_500, 1, 2) - 59_500 == 2500
  {
  }
}

/**
 The diff-emit engine: a per-key cache that answers with "nothing changed" on equal digests and
 otherwise with a whole value or a field patch.  `Submit` and `Evict` specify the two operations,
 `DiffEmitEngine` implements them, and the run lemmas say what a subscriber ends up holding.

 The digest is a parameter `H`.  No fixed-width digest is injective, so the theorems ask only that
 `H` does not collide on the finitely many normal forms that occur in the run.
 */
module DiffEmit {
  import opened Wrappers
  import opened Json
  import opened FieldDiff

  datatype Config = Config(maxStateHistory: nat, diffThreshold: real, deepCompare: bool, ignoreFields: seq<string>)

  datatype Snapshot = Snapshot(data: Json, hash: string, timestamp: int, version: int)

  datatype EngineState = EngineState(store: map<string, Snapshot>, total: int, sent: int, skipped: int)

  /** What an emission carries. */
  datatype Payload = Whole(value: Json) | Patch(changes: map<string, FieldChange>)

  datatype Emission = Emission(
    hasChanges: bool, changePercent: real, diff: Option<Payload>, previousVersion: int, newVersion: int)

  const INITIAL := EngineState(map[], 0, 0, 0)

  // ---------------------------------------------------------------- specification

  ghost predicate IsShare(share: real, part: nat, total: nat) {
    if total > 0 then share * total as real == part as real else share == 0.0
  }

  function ChangePercent(changed: nat, total: nat): (r: real)
    ensures changed <= total ==> 0.0 <= r <= 1.0
    ensures IsShare(r, changed, total)
  {
    if total > 0 then changed as real / total as real else 0.0
  }

  /** `computeDetailedDiff` without its three field lists: payload and share of fields changed. */
  ghost function Detailed(cfg: Config, previous: Json, current: Json): (Option<Payload>, real) {
    if previous.Obj? && current.Obj? then
      var d := FieldChanges(true, cfg.ignoreFields, previous.fields, current.fields);
      (Some(Patch(d)), ChangePercent(|d|, |previous.fields.Keys + current.fields.Keys|))
    else if previous != current then (Some(Whole(current)), 1.0)
    else (None, 0.0)
  }

  ghost function SlowPath(cfg: Config, s: EngineState, key: string, v: Json): (Option<Payload>, real) {
    if key in s.store && cfg.deepCompare then Detailed(cfg, s.store[key].data, v) else (Some(Whole(v)), 1.0)
  }

  predicate FastPath(cfg: Config, H: Json -> string, s: EngineState, key: string, v: Json) {
    key in s.store && s.store[key].hash == H(Normalize(cfg.ignoreFields, v))
  }

  /** `ComputeDiff`.  `None` stands for data that cannot be encoded as JSON. */
  ghost function Submit(cfg: Config, H: Json -> string, s: EngineState, key: string, input: Option<Json>, now: int)
    : (EngineState, Option<Emission>)
  {
    if input.None? then (s.(total := s.total + 1), None) else
    var v := input.value;
    var previousVersion := if key in s.store then s.store[key].version else 0;
    if FastPath(cfg, H, s, key, v) then
      (s.(total := s.total + 1, skipped := s.skipped + 1),
       Some(Emission(false, 0.0, None, previousVersion, previousVersion + 1)))
    else
      var (diff, percent) := SlowPath(cfg, s, key, v);
      var emit := percent >= cfg.diffThreshold;
      var snapshot := Snapshot(v, H(Normalize(cfg.ignoreFields, v)), now, previousVersion + 1);
      (EngineState(s.store[key := snapshot], s.total + 1,
                   if emit then s.sent + 1 else s.sent, if emit then s.skipped else s.skipped + 1),
       Some(Emission(emit, percent, diff, previousVersion, previousVersion + 1)))
  }

  /** A listing of the stored keys, newest snapshot first; ties may stand in any order. */
  ghost predicate NewestFirst(store: map<string, Snapshot>, order: seq<string>) {
    && NoRepeats(order)
    && (forall k :: k in order <==> k in store)
    && (forall i, j :: 0 <= i < j < |order| && order[i] in store && order[j] in store ==>
          store[order[i]].timestamp >= store[order[j]].timestamp)
  }

  /** `performCleanup`, given the order in which its sort left the entries. */
  function Evict(cfg: Config, s: EngineState, order: seq<string>): EngineState {
    if |s.store| <= cfg.maxStateHistory || |order| <= cfg.maxStateHistory then s
    else s.(store := s.store - Elements(order[cfg.maxStateHistory..]))
  }

  lemma ElementsPush(keys: seq<string>, k: string)
    ensures Elements(keys + [k]) == Elements(keys) + {k}
  {
  }

  // ---------------------------------------------------------------- the engine

  datatype DiffResult = DiffResult(
    emission: Emission, changedFields: seq<string>, addedFields: seq<string>, removedFields: seq<string>)

  /** The field lists of a result agree with its payload; `compared` tells whether a detailed diff was made. */
  ghost predicate ListsMatch(r: DiffResult, compared: bool) {
    match r.emission.diff
    case Some(Patch(d)) => Partitions(d, r.changedFields, r.addedFields, r.removedFields)
    case Some(Whole(_)) =>
      r.changedFields == (if compared then ["root"] else []) && r.addedFields == [] && r.removedFields == []
    case None => r.changedFields == [] && r.addedFields == [] && r.removedFields == []
  }

  class DiffEmitEngine {
    const cfg: Config
    const H: Json -> string
    var stateStore: map<string, Snapshot>
    var totalComparisons: int
    var diffEmissionsSent: int
    var diffEmissionsSkipped: int

    ghost function State(): EngineState
      reads this
    {
      EngineState(stateStore, totalComparisons, diffEmissionsSent, diffEmissionsSkipped)
    }

    constructor (cfg: Config, H: Json -> string)
      ensures this.cfg == cfg && this.H == H && State() == INITIAL
    {
      this.cfg, this.H := cfg, H;
      stateStore := map[];
      totalComparisons, diffEmissionsSent, diffEmissionsSkipped := 0, 0, 0;
    }

    method ComputeDetailedDiff(previous: Json, current: Json)
      returns (diff: Option<Payload>, percent: real, changed: seq<string>, added: seq<string>, removed: seq<string>)
      ensures (diff, percent) == Detailed(cfg, previous, current)
      ensures match diff
              case Some(Patch(d)) =>
                && previous.Obj? && current.Obj? && ExactPatch(cfg.ignoreFields, previous.fields, current.fields, d)
                && Partitions(d, changed, added, removed)
              case Some(Whole(_)) => changed == ["root"] && added == [] && removed == []
              case None => changed == [] && added == [] && removed == []
    {
      diff, percent, changed, added, removed := None, 0.0, [], [], [];
      if !previous.Obj? || !current.Obj? {
        if previous != current {
          diff, percent, changed := Some(Whole(current)), 1.0, ["root"];
        }
        return;
      }
      var report, count := CompareFields(cfg.ignoreFields, previous.fields, current.fields);
      FieldChangesExact(cfg.ignoreFields, previous.fields, current.fields);
      var totalFields := |previous.fields.Keys + current.fields.Keys|;
      if totalFields > 0 {
        percent := count as real / totalFields as real;
      }
      return Some(Patch(report.diff)), percent, report.changed, report.added, report.removed;
    }

    method ComputeDiff(key: string, input: Option<Json>, now: int) returns (result: Option<DiffResult>)
      modifies this
      ensures (State(), if result.Some? then Some(result.value.emission) else None)
           == Submit(cfg, H, old(State()), key, input, now)
      ensures result.Some? ==> ListsMatch(result.value, key in old(stateStore) && cfg.deepCompare)
    {
      totalComparisons := totalComparisons + 1;
      if input.None? {
        return None;
      }
      var currentData := input.value;
      var currentHash := H(Normalize(cfg.ignoreFields, currentData));
      var version := 1;
      if key in stateStore {
        version := stateStore[key].version + 1;
      }
      if key in stateStore && stateStore[key].hash == currentHash {
        diffEmissionsSkipped := diffEmissionsSkipped + 1;
        return Some(DiffResult(Emission(false, 0.0, None, stateStore[key].version, version), [], [], []));
      }
      var diff, percent: real, changed: seq<string>, added: seq<string>, removed: seq<string> :=
        Some(Whole(currentData)), 1.0, [], [], [];
      if key in stateStore && cfg.deepCompare {
        diff, percent, changed, added, removed := ComputeDetailedDiff(stateStore[key].data, currentData);
      }
      var hasChanges := percent >= cfg.diffThreshold;
      var previousVersion := if key in stateStore then stateStore[key].version else 0;
      stateStore := stateStore[key := Snapshot(currentData, currentHash, now, version)];
      if hasChanges {
        diffEmissionsSent := diffEmissionsSent + 1;
      } else {
        diffEmissionsSkipped := diffEmissionsSkipped + 1;
      }
      result := Some(DiffResult(Emission(hasChanges, percent, diff, previousVersion, version), changed, added, removed));
    }

    method PerformCleanup(order: seq<string>)
      requires |stateStore| > cfg.maxStateHistory ==> NewestFirst(stateStore, order)
      modifies this`stateStore
      ensures State() == Evict(cfg, old(State()), order)
    {
      if |stateStore| <= cfg.maxStateHistory {
        return;
      }
      ListingLength(stateStore, order);
      stateStore := DeleteFrom(stateStore, order, cfg.maxStateHistory);
    }

    /** The deletion loop of `performCleanup`. */
    static method DeleteFrom(store: map<string, Snapshot>, order: seq<string>, first: nat)
      returns (kept: map<string, Snapshot>)
      requires first <= |order|
      ensures kept == store - Elements(order[first..])
    {
      kept := store;
      var toDelete := |order| - first;
      var i := first;
      while i < |order| && toDelete > 0
        invariant first <= i <= |order| && toDelete == |order| - i
        invariant kept == store - Elements(order[first..i])
      {
        assert order[first..i + 1] == order[first..i] + [order[i]];
        ElementsPush(order[first..i], order[i]);
        kept := kept - {order[i]};
        toDelete := toDelete - 1;
        i := i + 1;
      }
      assert order[first..i] == order[first..];
    }
  }

  lemma {:induction false} ListingSize(order: seq<string>)
    requires NoRepeats(order)
    ensures |Elements(order)| == |order|
  {
    if order == [] {
    } else {
      var init, last := order[..|order| - 1], order[|order| - 1];
      ListingSize(init);
      assert order == init + [last];
      ElementsPush(init, last);
    }
  }

  lemma ListingLength(store: map<string, Snapshot>, order: seq<string>)
    requires NewestFirst(store, order)
    ensures |order| == |store|
  {
    ListingSize(order);
    assert Elements(order) == store.Keys;
  }

  /** The first `n` keys of a newest-first listing, and the rest, split the store by age. */
  lemma SplitByAge(store: map<string, Snapshot>, order: seq<string>, n: nat)
    requires NewestFirst(store, order) && n <= |order|
    ensures forall k :: k in store ==> (k in order[..n] <==> k !in order[n..])
    ensures forall k :: k in order[..n] ==> k in store
    ensures forall a, b :: a in order[..n] && b in order[n..] && a in store && b in store ==>
              store[a].timestamp >= store[b].timestamp
  {
    assert order == order[..n] + order[n..];
    forall k | k in store ensures k in order[..n] <==> k !in order[n..] {
      var i :| 0 <= i < |order| && order[i] == k;
    }
    forall a, b | a in order[..n] && b in order[n..] && a in store && b in store
      ensures store[a].timestamp >= store[b].timestamp
    {
      var i :| 0 <= i < n && order[i] == a;
      var j :| n <= j < |order| && order[j] == b;
    }
  }

  /** Cleanup keeps exactly the `maxStateHistory` newest snapshots, untouched. */
  lemma EvictKeepsNewest(cfg: Config, s: EngineState, order: seq<string>)
    requires |s.store| > cfg.maxStateHistory && NewestFirst(s.store, order)
    ensures var t := Evict(cfg, s, order);
            && |t.store| == cfg.maxStateHistory
            && (forall k :: k in t.store ==> k in s.store && t.store[k] == s.store[k])
            && (forall a, b :: a in t.store && b in s.store && b !in t.store ==>
                  s.store[a].timestamp >= s.store[b].timestamp)
  {
    var n := cfg.maxStateHistory;
    ListingLength(s.store, order);
    SplitByAge(s.store, order, n);
    ListingSize(order[..n]);
    assert Evict(cfg, s, order).store.Keys == Elements(order[..n]);
  }

  // ---------------------------------------------------------------- subscriber

  /** A subscriber replaces its copy by a whole value, or patches the object it holds. */
  function Receive(held: Option<Json>, p: Payload): Option<Json> {
    match p
    case Whole(v) => Some(v)
    case Patch(changes) =>
      if held.Some? && held.value.Obj? then Some(Obj(ApplyFields(held.value.fields, changes))) else held
  }

  datatype Event =
    | Submitted(key: string, input: Option<Json>, now: int)
    | CleanedUp(order: seq<string>)

  /**
   Engine and subscriber side by side, with what the theorems speak about: the latest value
   submitted for each key, the number of times its normal form has changed since the key was last
   created, and the number of submissions that could not be encoded.
   */
  datatype World = World(
    engine: EngineState, held: map<string, Json>, latest: map<string, Json>, changes: map<string, nat>, failures: nat)

  const START := World(INITIAL, map[], map[], map[], 0)

  ghost function Deliver(held: map<string, Json>, key: string, e: Emission): map<string, Json> {
    if e.hasChanges && e.diff.Some? then
      var copy := Receive(if key in held then Some(held[key]) else None, e.diff.value);
      if copy.Some? then held[key := copy.value] else held
    else held
  }

  ghost function CountChange(cfg: Config, w: World, key: string, v: Json): nat {
    if key !in w.engine.store || key !in w.latest || key !in w.changes then 0
    else if Normalize(cfg.ignoreFields, w.latest[key]) == Normalize(cfg.ignoreFields, v) then w.changes[key]
    else w.changes[key] + 1
  }

  ghost function Step(cfg: Config, H: Json -> string, w: World, ev: Event): World {
    match ev
    case CleanedUp(order) => w.(engine := Evict(cfg, w.engine, order))
    case Submitted(key, input, now) =>
      var (engine, emission) := Submit(cfg, H, w.engine, key, input, now);
      if input.None? || emission.None? then w.(engine := engine, failures := w.failures + 1)
      else World(engine, Deliver(w.held, key, emission.value), w.latest[key := input.value],
                 w.changes[key := CountChange(cfg, w, key, input.value)], w.failures)
  }

  ghost function Run(cfg: Config, H: Json -> string, w: World, events: seq<Event>): World
    decreases |events|
  {
    if events == [] then w else Run(cfg, H, Step(cfg, H, w, events[0]), events[1..])
  }

  // ---------------------------------------------------------------- what every run keeps

  ghost predicate CollisionFree(H: Json -> string, normals: set<Json>) {
    forall a, b :: a in normals && b in normals && H(a) == H(b) ==> a == b
  }

  /** The normal forms that occur in a run. */
  ghost predicate Covers(cfg: Config, normals: set<Json>, events: seq<Event>) {
    forall i :: 0 <= i < |events| && events[i].Submitted? && events[i].input.Some? ==>
      Normalize(cfg.ignoreFields, events[i].input.value) in normals
  }

  /** The cache agrees with the plain history of submissions. */
  ghost predicate Faithful(cfg: Config, H: Json -> string, w: World) {
    && (forall k :: k in w.engine.store ==> FaithfulFor(cfg, H, w, k))
    && Counted(w)
  }

  ghost predicate FaithfulFor(cfg: Config, H: Json -> string, w: World, k: string)
    requires k in w.engine.store
  {
    && k in w.latest && k in w.changes
    && w.engine.store[k].hash == H(Normalize(cfg.ignoreFields, w.latest[k]))
    && Normalize(cfg.ignoreFields, w.engine.store[k].data) == Normalize(cfg.ignoreFields, w.latest[k])
    && w.engine.store[k].version == 1 + w.changes[k]
  }

  ghost predicate Counted(w: World) {
    w.engine.total == w.engine.sent + w.engine.skipped + w.failures
  }

  ghost predicate Known(cfg: Config, normals: set<Json>, w: World) {
    forall k :: k in w.latest ==> Normalize(cfg.ignoreFields, w.latest[k]) in normals
  }

  ghost predicate SameNormal(cfg: Config, a: Json, b: Json) {
    Normalize(cfg.ignoreFields, a) == Normalize(cfg.ignoreFields, b)
  }

  ghost predicate KeyInSync(cfg: Config, w: World, k: string) {
    k in w.latest ==> k in w.held && SameNormal(cfg, w.held[k], w.latest[k])
  }

  /** The subscriber holds, for every key, a value equal to the latest one up to ignored fields. */
  ghost predicate InSync(cfg: Config, w: World) {
    forall k :: KeyInSync(cfg, w, k)
  }

  /** Equal digests happen exactly when the normal forms are equal. */
  lemma FastPathIsSameNormal(cfg: Config, H: Json -> string, normals: set<Json>, w: World, key: string, v: Json)
    requires Faithful(cfg, H, w) && Known(cfg, normals, w) && CollisionFree(H, normals)
    requires Normalize(cfg.ignoreFields, v) in normals
    ensures FastPath(cfg, H, w.engine, key, v) <==> key in w.engine.store && SameNormal(cfg, w.latest[key], v)
  {
  }

  /** Equal digests happen exactly when plain comparison finds no difference. */
  lemma FastPathIsPlainComparison(cfg: Config, H: Json -> string, normals: set<Json>, w: World, key: string, v: Json)
    requires Faithful(cfg, H, w) && Known(cfg, normals, w) && CollisionFree(H, normals)
    requires Normalize(cfg.ignoreFields, v) in normals
    ensures FastPath(cfg, H, w.engine, key, v) <==>
            key in w.engine.store && Agree(cfg.ignoreFields, w.latest[key], v)
  {
    FastPathIsSameNormal(cfg, H, normals, w, key, v);
    if key in w.engine.store {
      NormalFormDecidesAgreement(cfg.ignoreFields, w.latest[key], v);
    }
  }

  lemma FaithfulSubmit(cfg: Config, H: Json -> string, normals: set<Json>, w: World, key: string, v: Json, now: int)
    requires Faithful(cfg, H, w) && Known(cfg, normals, w) && CollisionFree(H, normals)
    requires Normalize(cfg.ignoreFields, v) in normals
    ensures var next := Step(cfg, H, w, Submitted(key, Some(v), now));
            Faithful(cfg, H, next) && Known(cfg, normals, next)
  {
    var next := Step(cfg, H, w, Submitted(key, Some(v), now));
    assert Counted(w);
    OwnKeyFaithful(cfg, H, normals, w, key, v, now);
    forall k | k in next.engine.store && k != key ensures FaithfulFor(cfg, H, next, k) {
      OtherKeyFaithful(cfg, H, w, key, v, now, k);
    }
  }

  lemma OwnKeyFaithful(cfg: Config, H: Json -> string, normals: set<Json>, w: World, key: string, v: Json, now: int)
    requires Faithful(cfg, H, w) && Known(cfg, normals, w) && CollisionFree(H, normals)
    requires Normalize(cfg.ignoreFields, v) in normals
    ensures var next := Step(cfg, H, w, Submitted(key, Some(v), now));
            key in next.engine.store && FaithfulFor(cfg, H, next, key)
  {
    FastPathIsSameNormal(cfg, H, normals, w, key, v);
    if key in w.engine.store {
      assert FaithfulFor(cfg, H, w, key);
    }
  }

  lemma OtherKeyFaithful(cfg: Config, H: Json -> string, w: World, key: string, v: Json, now: int, k: string)
    requires k != key && (k in w.engine.store ==> FaithfulFor(cfg, H, w, k))
    requires k in Step(cfg, H, w, Submitted(key, Some(v), now)).engine.store
    ensures FaithfulFor(cfg, H, Step(cfg, H, w, Submitted(key, Some(v), now)), k)
  {
  }

  lemma FaithfulEvict(cfg: Config, H: Json -> string, w: World, order: seq<string>)
    requires Faithful(cfg, H, w)
    ensures Faithful(cfg, H, Step(cfg, H, w, CleanedUp(order)))
  {
  }

  lemma FaithfulStep(cfg: Config, H: Json -> string, normals: set<Json>, w: World, ev: Event)
    requires Faithful(cfg, H, w) && Known(cfg, normals, w) && CollisionFree(H, normals)
    requires Covers(cfg, normals, [ev])
    ensures Faithful(cfg, H, Step(cfg, H, w, ev)) && Known(cfg, normals, Step(cfg, H, w, ev))
  {
    assert [ev][0] == ev;
    match ev
    case CleanedUp(order) => FaithfulEvict(cfg, H, w, order);
    case Submitted(key, input, now) =>
      if input.Some? {
        FaithfulSubmit(cfg, H, normals, w, key, input.value, now);
      }
  }

  /**
   Over every run: the stored digest is that of the latest submission, the stored version is one
   plus the number of changes since the key was created, and every comparison is accounted for.
   */
  lemma {:induction false} CacheFaithful(cfg: Config, H: Json -> string, normals: set<Json>, w: World, events: seq<Event>)
    requires Faithful(cfg, H, w) && Known(cfg, normals, w) && CollisionFree(H, normals)
    requires Covers(cfg, normals, events)
    ensures Faithful(cfg, H, Run(cfg, H, w, events)) && Known(cfg, normals, Run(cfg, H, w, events))
    decreases |events|
  {
    if events == [] {
    } else {
      FaithfulStep(cfg, H, normals, w, events[0]);
      CacheFaithful(cfg, H, normals, Step(cfg, H, w, events[0]), events[1..]);
    }
  }

  // ---------------------------------------------------------------- what a submission reports

  /** By plain comparison the submission repeats the latest one, and the key is cached. */
  ghost predicate Repeats(cfg: Config, w: World, key: string, v: Json) {
    key in w.engine.store && key in w.latest && Agree(cfg.ignoreFields, w.latest[key], v)
  }

  /** The share of the cached value that is new, or all of it when there is none to compare with. */
  ghost function ShareOf(cfg: Config, w: World, key: string, v: Json): real {
    if key in w.engine.store && cfg.deepCompare then Detailed(cfg, w.engine.store[key].data, v).1 else 1.0
  }

  /** The submission says something new about its key, and enough of it is new. */
  ghost predicate WorthSending(cfg: Config, w: World, key: string, v: Json) {
    && !Repeats(cfg, w, key, v)
    && ShareOf(cfg, w, key, v) >= cfg.diffThreshold
  }

  lemma FastPathRepeats(cfg: Config, H: Json -> string, normals: set<Json>, w: World, key: string, v: Json)
    requires Faithful(cfg, H, w) && Known(cfg, normals, w) && CollisionFree(H, normals)
    requires Covers(cfg, normals, [Submitted(key, Some(v), 0)])
    ensures FastPath(cfg, H, w.engine, key, v) <==> Repeats(cfg, w, key, v)
  {
    assert [Submitted(key, Some(v), 0)][0] == Submitted(key, Some(v), 0);
    FastPathIsPlainComparison(cfg, H, normals, w, key, v);
  }

  /**
   A submission is counted as sent exactly when plain comparison with the latest one finds it new
   and the share of what is new reaches the threshold, as skipped when it is encodable and not
   sent, and as neither when it cannot be encoded.
   */
  lemma CountedExactly(cfg: Config, H: Json -> string, normals: set<Json>, w: World, key: string, v: Json, now: int)
    requires Faithful(cfg, H, w) && Known(cfg, normals, w) && CollisionFree(H, normals)
    requires Covers(cfg, normals, [Submitted(key, Some(v), 0)])
    ensures var s, t := w.engine, Step(cfg, H, w, Submitted(key, Some(v), now)).engine;
            && t.total == s.total + 1
            && t.sent == s.sent + (if WorthSending(cfg, w, key, v) then 1 else 0)
            && t.skipped == s.skipped + (if WorthSending(cfg, w, key, v) then 0 else 1)
    ensures var s, t := w.engine, Step(cfg, H, w, Submitted(key, None, now)).engine;
            t.store == s.store && t.total == s.total + 1 && t.sent == s.sent && t.skipped == s.skipped
  {
    FastPathRepeats(cfg, H, normals, w, key, v);
  }

  function Digest(cfg: Config, H: Json -> string, v: Json): string {
    H(Normalize(cfg.ignoreFields, v))
  }

  /** The version a key has before a submission: none, or one more than its changes since it was created. */
  function VersionBefore(w: World, key: string): int {
    if key in w.engine.store && key in w.changes then 1 + w.changes[key] else 0
  }

  lemma VersionIsStored(cfg: Config, H: Json -> string, w: World, key: string)
    requires Faithful(cfg, H, w)
    ensures VersionBefore(w, key) == if key in w.engine.store then w.engine.store[key].version else 0
  {
  }

  /** The caller is told the versions before and after, the share of what is new, and whether something was sent. */
  lemma ReportedExactly(cfg: Config, H: Json -> string, normals: set<Json>, w: World, key: string, v: Json, now: int)
    requires Faithful(cfg, H, w) && Known(cfg, normals, w) && CollisionFree(H, normals)
    requires Covers(cfg, normals, [Submitted(key, Some(v), 0)])
    ensures var e := Submit(cfg, H, w.engine, key, Some(v), now).1;
            && e.Some? && e.value.previousVersion == VersionBefore(w, key)
            && e.value.newVersion == VersionBefore(w, key) + 1
            && (e.value.hasChanges <==> WorthSending(cfg, w, key, v))
            && e.value.changePercent == (if Repeats(cfg, w, key, v) then 0.0 else ShareOf(cfg, w, key, v))
            && (Repeats(cfg, w, key, v) ==> e.value.diff.None?)
  {
    FastPathRepeats(cfg, H, normals, w, key, v);
    VersionIsStored(cfg, H, w, key);
  }

  /** The new value is stored with the time it came and its new version, unless it repeats the latest one. */
  lemma StoredExactly(cfg: Config, H: Json -> string, normals: set<Json>, w: World, key: string, v: Json, now: int)
    requires Faithful(cfg, H, w) && Known(cfg, normals, w) && CollisionFree(H, normals)
    requires Covers(cfg, normals, [Submitted(key, Some(v), 0)])
    ensures Step(cfg, H, w, Submitted(key, Some(v), now)).engine.store ==
              if Repeats(cfg, w, key, v) then w.engine.store
              else w.engine.store[key := Snapshot(v, Digest(cfg, H, v), now, VersionBefore(w, key) + 1)]
  {
    FastPathRepeats(cfg, H, normals, w, key, v);
    VersionIsStored(cfg, H, w, key);
  }

  // ---------------------------------------------------------------- emissions

  lemma SomeFieldDiffers(ignore: seq<string>, p: map<string, Json>, c: map<string, Json>) returns (f: string)
    requires !Agree(ignore, Obj(p), Obj(c))
    ensures Differs(ignore, p, c, f)
  {
    if k :| !Ignored(ignore, k) && !(k in p <==> k in c) {
      f := k;
    } else {
      f :| !Ignored(ignore, f) && f in p && f in c && !Agree(ignore, p[f], c[f]);
      if p[f] == c[f] {
        NormalFormDecidesAgreement(ignore, p[f], c[f]);
        assert false;
      }
    }
  }

  /** A submission that reaches the field diff with two objects always yields at least one entry. */
  lemma SlowPathFindsChange(cfg: Config, previous: Json, current: Json)
    requires Normalize(cfg.ignoreFields, previous) != Normalize(cfg.ignoreFields, current)
    ensures var (diff, percent) := Detailed(cfg, previous, current);
            && diff.Some?
            && (diff.value.Patch? ==>
                  && |diff.value.changes| >= 1
                  && 1.0 / |previous.fields.Keys + current.fields.Keys| as real <= percent <= 1.0)
            && (diff.value.Whole? ==> diff.value.value == current && percent == 1.0)
  {
    if previous.Obj? && current.Obj? {
      NormalFormDecidesAgreement(cfg.ignoreFields, previous, current);
      PatchShare(cfg.ignoreFields, previous.fields, current.fields);
    }
  }

  /** The fields of two objects that are not ignored and were added, removed or changed. */
  ghost function ChangedFields(ignore: seq<string>, p: map<string, Json>, c: map<string, Json>): set<string> {
    set f | f in p.Keys + c.Keys && !Ignored(ignore, f) && !(f in p && f in c && p[f] == c[f])
  }

  lemma ChangedFieldsCounted(ignore: seq<string>, p: map<string, Json>, c: map<string, Json>)
    ensures |FieldChanges(true, ignore, p, c)| == |ChangedFields(ignore, p, c)|
  {
    assert FieldChanges(true, ignore, p, c).Keys == ChangedFields(ignore, p, c);
  }

  /** The share of two objects is the number of changed fields among all; of other values, all or nothing. */
  lemma ShareExactly(cfg: Config, previous: Json, current: Json)
    ensures var share := Detailed(cfg, previous, current).1;
            if previous.Obj? && current.Obj? then
              IsShare(share, |ChangedFields(cfg.ignoreFields, previous.fields, current.fields)|,
                      |previous.fields.Keys + current.fields.Keys|)
            else share == if previous == current then 0.0 else 1.0
  {
    if previous.Obj? && current.Obj? {
      ChangedFieldsCounted(cfg.ignoreFields, previous.fields, current.fields);
    }
  }

  lemma PatchShare(ignore: seq<string>, p: map<string, Json>, c: map<string, Json>)
    requires !Agree(ignore, Obj(p), Obj(c))
    ensures var d, total := FieldChanges(true, ignore, p, c), |p.Keys + c.Keys|;
            1 <= |d| <= total && 1.0 / total as real <= ChangePercent(|d|, total) <= 1.0
  {
    var d := FieldChanges(true, ignore, p, c);
    var f := SomeFieldDiffers(ignore, p, c);
    assert f in d.Keys;
    SubsetSize(d.Keys, p.Keys + c.Keys);
    ShareAtLeast(|d|, |p.Keys + c.Keys|);
  }

  /** The share of changed fields always lies in [0, 1]. */
  lemma ShareInUnitInterval(ignore: seq<string>, p: map<string, Json>, c: map<string, Json>)
    ensures 0.0 <= ChangePercent(|FieldChanges(true, ignore, p, c)|, |p.Keys + c.Keys|) <= 1.0
  {
    SubsetSize(FieldChanges(true, ignore, p, c).Keys, p.Keys + c.Keys);
  }

  lemma {:induction false} SubsetSize(a: set<string>, b: set<string>)
    requires a <= b
    ensures |a| <= |b|
  {
    if a == {} {
    } else {
      var x :| x in a;
      SubsetSize(a - {x}, b - {x});
    }
  }

  lemma ShareAtLeast(changed: nat, total: nat)
    requires 1 <= changed <= total
    ensures 1.0 / total as real <= changed as real / total as real <= 1.0
  {
  }

  /** Patching a copy that agrees with the previous value makes it agree with the current one. */
  lemma PatchCarriesAgreement(ignore: seq<string>, held: map<string, Json>, previous: map<string, Json>, current: map<string, Json>)
    requires Agree(ignore, Obj(held), Obj(previous))
    ensures Agree(ignore, Obj(ApplyFields(held, FieldChanges(true, ignore, previous, current))), Obj(current))
  {
    var d := FieldChanges(true, ignore, previous, current);
    var copy := ApplyFields(held, d);
    forall f | !Ignored(ignore, f)
      ensures f in copy <==> f in current
      ensures f in copy && f in current ==> Agree(ignore, copy[f], current[f])
    {
      if Differs(ignore, previous, current, f) {
        assert f in previous.Keys + current.Keys;
        assert f in d && d[f] == EntryFor(true, previous, current, f);
        if f in current {
          NormalFormDecidesAgreement(ignore, current[f], current[f]);
        }
      } else {
        assert f !in d;
      }
    }
  }

  /** The slow path was taken and the change fell below the threshold: nothing is sent. */
  ghost predicate Dropped(cfg: Config, H: Json -> string, s: EngineState, ev: Event) {
    && ev.Submitted? && ev.input.Some?
    && !FastPath(cfg, H, s, ev.key, ev.input.value)
    && SlowPath(cfg, s, ev.key, ev.input.value).1 < cfg.diffThreshold
  }

  lemma PatchCarriesNormal(ignore: seq<string>, held: map<string, Json>, previous: map<string, Json>, current: map<string, Json>)
    requires Normalize(ignore, Obj(held)) == Normalize(ignore, Obj(previous))
    ensures Normalize(ignore, Obj(ApplyFields(held, FieldChanges(true, ignore, previous, current))))
         == Normalize(ignore, Obj(current))
  {
    NormalFormDecidesAgreement(ignore, Obj(held), Obj(previous));
    PatchCarriesAgreement(ignore, held, previous, current);
    NormalFormDecidesAgreement(ignore, Obj(ApplyFields(held, FieldChanges(true, ignore, previous, current))), Obj(current));
  }

  /** Receiving a slow-path payload carries a copy of the stored value to one of the new value. */
  lemma PayloadCarries(cfg: Config, s: EngineState, key: string, v: Json, held: Option<Json>)
    requires key in s.store ==> held.Some? && SameNormal(cfg, held.value, s.store[key].data)
    requires key in s.store ==> !SameNormal(cfg, s.store[key].data, v)
    ensures var (diff, _) := SlowPath(cfg, s, key, v);
            diff.Some? && Receive(held, diff.value).Some? && SameNormal(cfg, Receive(held, diff.value).value, v)
  {
    if key in s.store && s.store[key].data.Obj? && v.Obj? {
      assert held.value.Obj?;
      PatchCarriesNormal(cfg.ignoreFields, held.value.fields, s.store[key].data.fields, v.fields);
    }
  }

  /** An emitted slow-path step delivers its payload to the key's copy and records the value. */
  lemma SlowStep(cfg: Config, H: Json -> string, w: World, key: string, v: Json, now: int)
    requires !FastPath(cfg, H, w.engine, key, v) && !Dropped(cfg, H, w.engine, Submitted(key, Some(v), now))
    ensures var next := Step(cfg, H, w, Submitted(key, Some(v), now));
            var (diff, _) := SlowPath(cfg, w.engine, key, v);
            && key in next.latest && next.latest[key] == v
            && (diff.Some? ==> next.held == Deliver(w.held, key, Emission(true, 1.0, diff, 0, 0)))
  {
  }

  /** What one slow-path emission does to a subscriber copy that was in step with the stored value. */
  lemma SlowPathDelivers(cfg: Config, H: Json -> string, normals: set<Json>, w: World, key: string, v: Json, now: int)
    requires Faithful(cfg, H, w) && Known(cfg, normals, w) && CollisionFree(H, normals)
    requires Normalize(cfg.ignoreFields, v) in normals && KeyInSync(cfg, w, key)
    requires !FastPath(cfg, H, w.engine, key, v) && !Dropped(cfg, H, w.engine, Submitted(key, Some(v), now))
    ensures KeyInSync(cfg, Step(cfg, H, w, Submitted(key, Some(v), now)), key)
  {
    FastPathIsSameNormal(cfg, H, normals, w, key, v);
    SlowStep(cfg, H, w, key, v, now);
    PayloadCarries(cfg, w.engine, key, v, if key in w.held then Some(w.held[key]) else None);
  }

  /** The event drops a change that the subscriber's copy does not have already. */
  ghost predicate LosesChange(cfg: Config, H: Json -> string, w: World, ev: Event) {
    && Dropped(cfg, H, w.engine, ev)
    && !(ev.key in w.held && SameNormal(cfg, w.held[ev.key], ev.input.value))
  }

  /** A dropped submission is recorded as the latest and leaves every copy alone. */
  lemma DroppedStep(cfg: Config, H: Json -> string, w: World, key: string, v: Json, now: int)
    requires Dropped(cfg, H, w.engine, Submitted(key, Some(v), now))
    ensures var next := Step(cfg, H, w, Submitted(key, Some(v), now));
            next.held == w.held && key in next.latest && next.latest[key] == v
  {
  }

  /** The event's own key is in sync afterwards exactly when no change to it was lost. */
  lemma KeySyncExactly(cfg: Config, H: Json -> string, normals: set<Json>, w: World, key: string, v: Json, now: int)
    requires Faithful(cfg, H, w) && Known(cfg, normals, w) && CollisionFree(H, normals)
    requires Normalize(cfg.ignoreFields, v) in normals && KeyInSync(cfg, w, key)
    ensures var ev := Submitted(key, Some(v), now);
            KeyInSync(cfg, Step(cfg, H, w, ev), key) <==> !LosesChange(cfg, H, w, ev)
  {
    if Dropped(cfg, H, w.engine, Submitted(key, Some(v), now)) {
      DroppedStep(cfg, H, w, key, v, now);
    } else if FastPath(cfg, H, w.engine, key, v) {
      FastPathIsSameNormal(cfg, H, normals, w, key, v);
    } else {
      SlowPathDelivers(cfg, H, normals, w, key, v, now);
    }
  }

  /** With a threshold of at most 1, every dropped change is one the subscriber lacks. */
  lemma DroppedIsLost(cfg: Config, H: Json -> string, normals: set<Json>, w: World, ev: Event)
    requires Faithful(cfg, H, w) && Known(cfg, normals, w) && CollisionFree(H, normals)
    requires Covers(cfg, normals, [ev]) && InSync(cfg, w) && cfg.diffThreshold <= 1.0
    ensures LosesChange(cfg, H, w, ev) <==> Dropped(cfg, H, w.engine, ev)
  {
    assert [ev][0] == ev;
    if Dropped(cfg, H, w.engine, ev) {
      assert KeyInSync(cfg, w, ev.key);
      FastPathIsSameNormal(cfg, H, normals, w, ev.key, ev.input.value);
    }
  }

  lemma OtherKeysKeepSync(cfg: Config, H: Json -> string, w: World, ev: Event, k: string)
    requires KeyInSync(cfg, w, k) && !(ev.Submitted? && ev.input.Some? && ev.key == k)
    ensures KeyInSync(cfg, Step(cfg, H, w, ev), k)
  {
  }

  /**
   From a state in sync, a step leaves the subscriber in sync if and only if it did not drop a
   change that the subscriber lacks; eviction and fast-path calls never break it.
   */
  lemma SyncExactlyWhenNothingLost(cfg: Config, H: Json -> string, normals: set<Json>, w: World, ev: Event)
    requires Faithful(cfg, H, w) && Known(cfg, normals, w) && CollisionFree(H, normals)
    requires Covers(cfg, normals, [ev]) && InSync(cfg, w)
    ensures InSync(cfg, Step(cfg, H, w, ev)) <==> !LosesChange(cfg, H, w, ev)
  {
    assert [ev][0] == ev;
    forall k | !(ev.Submitted? && ev.input.Some? && ev.key == k) ensures KeyInSync(cfg, Step(cfg, H, w, ev), k) {
      assert KeyInSync(cfg, w, k);
      OtherKeysKeepSync(cfg, H, w, ev, k);
    }
    if ev.Submitted? && ev.input.Some? {
      assert KeyInSync(cfg, w, ev.key);
      KeySyncExactly(cfg, H, normals, w, ev.key, ev.input.value, ev.now);
    }
  }

  /** A threshold no larger than one field's share of the two objects being compared. */
  ghost predicate ThresholdFits(cfg: Config, s: EngineState, ev: Event) {
    && cfg.diffThreshold <= 1.0
    && (ev.Submitted? && ev.input.Some? && ev.input.value.Obj? && ev.key in s.store && s.store[ev.key].data.Obj? ==>
          var fields := s.store[ev.key].data.fields.Keys + ev.input.value.fields.Keys;
          fields != {} ==> cfg.diffThreshold <= 1.0 / |fields| as real)
  }

  ghost predicate ThresholdFitsRun(cfg: Config, H: Json -> string, w: World, events: seq<Event>)
    decreases |events|
  {
    events != [] ==>
      && ThresholdFits(cfg, w.engine, events[0])
      && ThresholdFitsRun(cfg, H, Step(cfg, H, w, events[0]), events[1..])
  }

  lemma FittingThresholdDropsNothing(cfg: Config, H: Json -> string, normals: set<Json>, w: World, ev: Event)
    requires Faithful(cfg, H, w) && Known(cfg, normals, w) && CollisionFree(H, normals)
    requires Covers(cfg, normals, [ev]) && ThresholdFits(cfg, w.engine, ev)
    ensures !Dropped(cfg, H, w.engine, ev)
  {
    assert [ev][0] == ev;
    if ev.Submitted? && ev.input.Some? && !FastPath(cfg, H, w.engine, ev.key, ev.input.value)
       && ev.key in w.engine.store && cfg.deepCompare
    {
      FastPathIsSameNormal(cfg, H, normals, w, ev.key, ev.input.value);
      SlowPathFindsChange(cfg, w.engine.store[ev.key].data, ev.input.value);
    }
  }

  ghost predicate AlwaysInSync(cfg: Config, H: Json -> string, w: World, events: seq<Event>)
    decreases |events|
  {
    InSync(cfg, w) && (events != [] ==> AlwaysInSync(cfg, H, Step(cfg, H, w, events[0]), events[1..]))
  }

  ghost predicate NeverDrops(cfg: Config, H: Json -> string, w: World, events: seq<Event>)
    decreases |events|
  {
    events != [] ==>
      && !Dropped(cfg, H, w.engine, events[0])
      && NeverDrops(cfg, H, Step(cfg, H, w, events[0]), events[1..])
  }

  ghost predicate NeverLoses(cfg: Config, H: Json -> string, w: World, events: seq<Event>)
    decreases |events|
  {
    events != [] ==>
      && !LosesChange(cfg, H, w, events[0])
      && NeverLoses(cfg, H, Step(cfg, H, w, events[0]), events[1..])
  }

  lemma {:induction false} DroppingNothingLosesNothing(cfg: Config, H: Json -> string, w: World, events: seq<Event>)
    requires NeverDrops(cfg, H, w, events)
    ensures NeverLoses(cfg, H, w, events)
    decreases |events|
  {
    if events == [] {
    } else {
      DroppingNothingLosesNothing(cfg, H, Step(cfg, H, w, events[0]), events[1..]);
    }
  }

  /** Over whole runs, the subscriber stays in sync after every event exactly when no change was lost. */
  lemma {:induction false} SyncOverRuns(cfg: Config, H: Json -> string, normals: set<Json>, w: World, events: seq<Event>)
    requires Faithful(cfg, H, w) && Known(cfg, normals, w) && CollisionFree(H, normals)
    requires Covers(cfg, normals, events) && InSync(cfg, w)
    ensures AlwaysInSync(cfg, H, w, events) <==> NeverLoses(cfg, H, w, events)
    decreases |events|
  {
    if events == [] {
    } else {
      var next := Step(cfg, H, w, events[0]);
      FaithfulStep(cfg, H, normals, w, events[0]);
      SyncExactlyWhenNothingLost(cfg, H, normals, w, events[0]);
      if InSync(cfg, next) {
        SyncOverRuns(cfg, H, normals, next, events[1..]);
      }
    }
  }

  lemma {:induction false} FittingRunNeverDrops(cfg: Config, H: Json -> string, normals: set<Json>, w: World, events: seq<Event>)
    requires Faithful(cfg, H, w) && Known(cfg, normals, w) && CollisionFree(H, normals)
    requires Covers(cfg, normals, events) && ThresholdFitsRun(cfg, H, w, events)
    ensures NeverDrops(cfg, H, w, events)
    decreases |events|
  {
    if events == [] {
    } else {
      FaithfulStep(cfg, H, normals, w, events[0]);
      FittingThresholdDropsNothing(cfg, H, normals, w, events[0]);
      FittingRunNeverDrops(cfg, H, normals, Step(cfg, H, w, events[0]), events[1..]);
    }
  }

  /**
   Subscriber refinement: over every run of a new engine whose threshold fits, after every event
   the subscriber holds for every key the latest submitted value up to ignored fields, across
   fast-path calls, failed encodings and evictions.
   */
  lemma SubscriberRefinesEngine(cfg: Config, H: Json -> string, normals: set<Json>, events: seq<Event>)
    requires CollisionFree(H, normals) && Covers(cfg, normals, events)
    requires ThresholdFitsRun(cfg, H, START, events)
    ensures AlwaysInSync(cfg, H, START, events) && Faithful(cfg, H, Run(cfg, H, START, events))
  {
    CacheFaithful(cfg, H, normals, START, events);
    FittingRunNeverDrops(cfg, H, normals, START, events);
    DroppingNothingLosesNothing(cfg, H, START, events);
    SyncOverRuns(cfg, H, normals, START, events);
  }

  /** A step whose threshold fits keeps the cache faithful and the subscriber in sync. */
  lemma FittingStep(cfg: Config, H: Json -> string, normals: set<Json>, w: World, ev: Event)
    requires Faithful(cfg, H, w) && Known(cfg, normals, w) && CollisionFree(H, normals) && InSync(cfg, w)
    requires Covers(cfg, normals, [ev]) && ThresholdFits(cfg, w.engine, ev)
    ensures Faithful(cfg, H, Step(cfg, H, w, ev)) && Known(cfg, normals, Step(cfg, H, w, ev))
    ensures InSync(cfg, Step(cfg, H, w, ev))
  {
    FaithfulStep(cfg, H, normals, w, ev);
    FittingThresholdDropsNothing(cfg, H, normals, w, ev);
    SyncExactlyWhenNothingLost(cfg, H, normals, w, ev);
  }

  lemma StartIsFaithful(cfg: Config, H: Json -> string, normals: set<Json>)
    ensures Faithful(cfg, H, START) && Known(cfg, normals, START) && InSync(cfg, START)
  {
  }

  lemma FirstIsStored(cfg: Config, H: Json -> string, key: string, v: Json, now: int)
    ensures var w := Step(cfg, H, START, Submitted(key, Some(v), now));
            key in w.engine.store && w.engine.store[key].data == v && key in w.latest && w.latest[key] == v
  {
  }

  /** The engine and subscriber after the first submission for any key. */
  lemma FirstSubmission(cfg: Config, H: Json -> string, normals: set<Json>, key: string, v: Json, now: int)
    requires CollisionFree(H, normals) && Covers(cfg, normals, [Submitted(key, Some(v), now)]) && cfg.diffThreshold <= 1.0
    ensures var w := Step(cfg, H, START, Submitted(key, Some(v), now));
            && Faithful(cfg, H, w) && Known(cfg, normals, w) && InSync(cfg, w)
            && key in w.engine.store && w.engine.store[key].data == v && w.latest[key] == v
  {
    var ev := Submitted(key, Some(v), now);
    FirstIsStored(cfg, H, key, v, now);
    StartIsFaithful(cfg, H, normals);
    FittingStep(cfg, H, normals, START, ev);
  }

  function TwoFields(b: Json): Json {
    Obj(map["a" := Null, "b" := b])
  }

  lemma HalfTheFieldsChange(cfg: Config, before: Json, after: Json)
    requires before != after && cfg.ignoreFields == []
    ensures Detailed(cfg, TwoFields(before), TwoFields(after)).1 == 0.5
  {
    OneOfTwo(TwoFields(before).fields, TwoFields(after).fields, "a", "b");
  }

  lemma OneOfTwo(p: map<string, Json>, c: map<string, Json>, a: string, b: string)
    requires a != b && p.Keys == {a, b} && c.Keys == {a, b} && p[a] == c[a] && p[b] != c[b]
    ensures |FieldChanges(true, [], p, c)| == 1 && |p.Keys + c.Keys| == 2
  {
    assert FieldChanges(true, [], p, c).Keys == {b};
    assert p.Keys + c.Keys == {a, b};
  }

  /** With a threshold above one field's share, a second submission leaves the subscriber behind. */
  lemma LargeThresholdLosesChange(cfg: Config, H: Json -> string, normals: set<Json>, key: string, before: Json, after: Json)
    requires cfg == Config(100, 0.75, true, []) && CollisionFree(H, normals) && !Agree([], before, after)
    requires Normalize([], TwoFields(before)) in normals && Normalize([], TwoFields(after)) in normals
    ensures var w := Step(cfg, H, START, Submitted(key, Some(TwoFields(before)), 0));
            InSync(cfg, w) && !InSync(cfg, Step(cfg, H, w, Submitted(key, Some(TwoFields(after)), 1)))
  {
    FirstSubmission(cfg, H, normals, key, TwoFields(before), 0);
    var w := Step(cfg, H, START, Submitted(key, Some(TwoFields(before)), 0));
    var second := Submitted(key, Some(TwoFields(after)), 1);
    assert Dropped(cfg, H, w.engine, second) by {
      assert !Agree([], TwoFields(before), TwoFields(after)) by {
        assert "b" in TwoFields(before).fields && !Ignored([], "b");
      }
      NormalFormDecidesAgreement([], before, after);
      HalfTheFieldsChange(cfg, before, after);
      FastPathIsPlainComparison(cfg, H, normals, w, key, TwoFields(after));
    }
    DroppedIsLost(cfg, H, normals, w, second);
    SyncExactlyWhenNothingLost(cfg, H, normals, w, second);
  }
}

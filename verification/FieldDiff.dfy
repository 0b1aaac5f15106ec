/**
 The diff functions of the diff-emit engine: arrays, nested maps and the top-level field diff,
 with the operations that apply and undo a diff.
 */
module FieldDiff {
  import opened Wrappers
  import opened Json

  datatype ItemChange =
    | ItemAdded(index: nat, value: Json)
    | ItemRemoved(index: nat, value: Json)
    | ItemModified(index: nat, previous: Json, current: Json)

  datatype NestedDiff =
    | ArrayDiff(items: seq<ItemChange>, lengthChange: int)
    | ObjectDiff(changes: map<string, FieldChange>)
    | PlainDiff(previous: Json, current: Json)

  datatype FieldChange =
    | Added(value: Json)
    | Removed(value: Json)
    | Modified(previous: Json, current: Json, nested: Option<NestedDiff>)

  // ---------------------------------------------------------------- arrays

  /** The entry for position `i`, if the arrays differ there. */
  function ItemEntry(previous: seq<Json>, current: seq<Json>, i: nat): seq<ItemChange>
    requires i < |previous| || i < |current|
  {
    if i >= |previous| then [ItemAdded(i, current[i])]
    else if i >= |current| then [ItemRemoved(i, previous[i])]
    else if previous[i] != current[i] then [ItemModified(i, previous[i], current[i])]
    else []
  }

  /** The changes at positions `i` and later, in increasing order of position. */
  function ItemChanges(previous: seq<Json>, current: seq<Json>, i: nat): seq<ItemChange>
    decreases |previous| + |current| - i
  {
    if i >= |previous| && i >= |current| then []
    else ItemEntry(previous, current, i) + ItemChanges(previous, current, i + 1)
  }

  method ComputeArrayDiff(previous: seq<Json>, current: seq<Json>) returns (d: NestedDiff)
    ensures d == ArrayDiff(ItemChanges(previous, current, 0), |current| - |previous|)
  {
    var maxLen := if |current| > |previous| then |current| else |previous|;
    var changes := [];
    var i := 0;
    while i < maxLen
      invariant 0 <= i <= maxLen
      invariant changes + ItemChanges(previous, current, i) == ItemChanges(previous, current, 0)
    {
      var entry := [];
      if i >= |previous| {
        entry := [ItemAdded(i, current[i])];
      } else if i >= |current| {
        entry := [ItemRemoved(i, previous[i])];
      } else if previous[i] != current[i] {
        entry := [ItemModified(i, previous[i], current[i])];
      }
      Regroup(changes, entry, ItemChanges(previous, current, i + 1));
      changes := changes + entry;
      i := i + 1;
    }
    d := ArrayDiff(changes, |current| - |previous|);
  }

  lemma Regroup<T>(a: seq<T>, b: seq<T>, c: seq<T>)
    ensures a + (b + c) == (a + b) + c
  {
  }

  /** The change recorded for position `i`, if any. */
  function ItemAt(changes: seq<ItemChange>, i: nat): Option<ItemChange> {
    if changes == [] then None
    else if changes[0].index == i then Some(changes[0])
    else ItemAt(changes[1..], i)
  }

  /** What a receiver of an array diff rebuilds from the array it already has. */
  function ApplyItems(base: seq<Json>, changes: seq<ItemChange>, lengthChange: int): (r: seq<Json>)
    requires |base| + lengthChange >= 0
  {
    seq(|base| + lengthChange, (i: nat) =>
      match ItemAt(changes, i)
      case Some(ItemAdded(_, v)) => v
      case Some(ItemModified(_, _, v)) => v
      case _ => if i < |base| then base[i] else Null)
  }

  function UndoItems(base: seq<Json>, changes: seq<ItemChange>, lengthChange: int): (r: seq<Json>)
    requires |base| - lengthChange >= 0
  {
    seq(|base| - lengthChange, (i: nat) =>
      match ItemAt(changes, i)
      case Some(ItemRemoved(_, v)) => v
      case Some(ItemModified(_, v, _)) => v
      case _ => if i < |base| then base[i] else Null)
  }

  lemma ItemAtHead(here: seq<ItemChange>, later: seq<ItemChange>, i: nat)
    requires |here| <= 1
    ensures ItemAt(here + later, i) ==
            if |here| == 1 && here[0].index == i then Some(here[0]) else ItemAt(later, i)
  {
    assert |here| == 1 ==> (here + later)[1..] == later;
    assert |here| == 0 ==> here + later == later;
  }

  /** What happened to position `i`. */
  function ItemBetween(previous: seq<Json>, current: seq<Json>, i: nat): Option<ItemChange> {
    if i < |previous| && i < |current| then
      if previous[i] == current[i] then None else Some(ItemModified(i, previous[i], current[i]))
    else if i < |current| then Some(ItemAdded(i, current[i]))
    else if i < |previous| then Some(ItemRemoved(i, previous[i]))
    else None
  }

  /** What the diff records for position `i`: one entry where the arrays differ, none elsewhere. */
  lemma {:induction false} ItemChangesAt(previous: seq<Json>, current: seq<Json>, from: nat, i: nat)
    requires from <= i
    ensures ItemAt(ItemChanges(previous, current, from), i) == ItemBetween(previous, current, i)
    decreases |previous| + |current| - from
  {
    if from >= |previous| && from >= |current| {
    } else {
      var later := ItemChanges(previous, current, from + 1);
      ItemAtHead(ItemEntry(previous, current, from), later, i);
      if from < i {
        ItemChangesAt(previous, current, from + 1, i);
      } else {
        ItemChangesIncreasing(previous, current, from + 1);
        NoItemBelow(later, i, from + 1);
      }
    }
  }

  ghost predicate Increasing(changes: seq<ItemChange>, from: nat) {
    && (forall j :: 0 <= j < |changes| ==> from <= changes[j].index)
    && (forall j, k :: 0 <= j < k < |changes| ==> changes[j].index < changes[k].index)
  }

  /** Positions strictly increase, so no position is reported twice. */
  lemma {:induction false} ItemChangesIncreasing(previous: seq<Json>, current: seq<Json>, from: nat)
    ensures Increasing(ItemChanges(previous, current, from), from)
    decreases |previous| + |current| - from
  {
    if from >= |previous| && from >= |current| {
    } else {
      ItemChangesIncreasing(previous, current, from + 1);
    }
  }

  lemma {:induction false} NoItemBelow(changes: seq<ItemChange>, i: nat, from: nat)
    requires i < from && Increasing(changes, from)
    ensures ItemAt(changes, i) == None
  {
    if changes == [] {
    } else {
      NoItemBelow(changes[1..], i, from);
    }
  }

  /** An array diff turns the previous array into the current one, and back. */
  lemma ArrayDiffInvertible(previous: seq<Json>, current: seq<Json>)
    ensures var d := ItemChanges(previous, current, 0);
            && ApplyItems(previous, d, |current| - |previous|) == current
            && UndoItems(current, d, |current| - |previous|) == previous
  {
    var d, longer := ItemChanges(previous, current, 0), |current| - |previous|;
    forall i: nat | i < |current| ensures ApplyItems(previous, d, longer)[i] == current[i] {
      ItemApplied(previous, current, i);
    }
    forall i: nat | i < |previous| ensures UndoItems(current, d, longer)[i] == previous[i] {
      ItemUndone(previous, current, i);
    }
  }

  lemma ItemApplied(previous: seq<Json>, current: seq<Json>, i: nat)
    requires i < |current|
    ensures ApplyItems(previous, ItemChanges(previous, current, 0), |current| - |previous|)[i] == current[i]
  {
    ItemChangesAt(previous, current, 0, i);
  }

  lemma ItemUndone(previous: seq<Json>, current: seq<Json>, i: nat)
    requires i < |previous|
    ensures UndoItems(current, ItemChanges(previous, current, 0), |current| - |previous|)[i] == previous[i]
  {
    ItemChangesAt(previous, current, 0, i);
  }

  // ---------------------------------------------------------------- maps

  /** Fields of either map that differ, or exist on one side only, and are not ignored. */
  ghost predicate Differs(ignore: seq<string>, previous: map<string, Json>, current: map<string, Json>, f: string) {
    && !Ignored(ignore, f)
    && (f in previous || f in current)
    && !(f in previous && f in current && previous[f] == current[f])
  }

  /** The entry the code writes for a differing field; `deep` selects the top-level form. */
  function EntryFor(deep: bool, previous: map<string, Json>, current: map<string, Json>, f: string): FieldChange
    requires f in previous || f in current
  {
    if f !in previous then Added(current[f])
    else if f !in current then Removed(previous[f])
    else Modified(previous[f], current[f],
                  if deep && IsComplex(current[f]) then Some(Nested(previous[f], current[f])) else None)
  }

  ghost function FieldChanges(deep: bool, ignore: seq<string>, previous: map<string, Json>, current: map<string, Json>)
    : map<string, FieldChange>
  {
    map f | f in previous.Keys + current.Keys && Differs(ignore, previous, current, f) ::
      EntryFor(deep, previous, current, f)
  }

  predicate IsComplex(v: Json) {
    v.Arr? || v.Obj?
  }

  /** `computeNestedDiff`, whose map case carries no further nesting. */
  function Nested(previous: Json, current: Json): NestedDiff {
    match (previous, current)
    case (Arr(p), Arr(c)) => ArrayDiff(ItemChanges(p, c, 0), |c| - |p|)
    case (Obj(p), Obj(c)) =>
      ObjectDiff(map f | f in p.Keys + c.Keys && !(f in p && f in c && p[f] == c[f]) ::
                   if f !in p then Added(c[f]) else if f !in c then Removed(p[f]) else Modified(p[f], c[f], None))
    case _ => PlainDiff(previous, current)
  }

  /** What a receiver of a field diff rebuilds from the fields it already has. */
  function ApplyFields(base: map<string, Json>, diff: map<string, FieldChange>): map<string, Json> {
    map f | f in base.Keys + diff.Keys && !(f in diff && diff[f].Removed?) ::
      if f !in diff then base[f]
      else match diff[f]
        case Added(v) => v
        case Modified(_, v, _) => v
        case Removed(v) => v
  }

  function UndoFields(base: map<string, Json>, diff: map<string, FieldChange>): map<string, Json> {
    map f | f in base.Keys + diff.Keys && !(f in diff && diff[f].Added?) ::
      if f !in diff then base[f]
      else match diff[f]
        case Removed(v) => v
        case Modified(v, _, _) => v
        case Added(v) => v
  }

  /** A nested diff applied to the value it was computed from. */
  function ApplyNested(base: Json, d: NestedDiff): Json {
    match (d, base)
    case (ArrayDiff(items, n), Arr(b)) => if |b| + n >= 0 then Arr(ApplyItems(b, items, n)) else base
    case (ObjectDiff(changes), Obj(b)) => Obj(ApplyFields(b, changes))
    case (PlainDiff(_, c), _) => c
    case _ => base
  }

  function UndoNested(base: Json, d: NestedDiff): Json {
    match (d, base)
    case (ArrayDiff(items, n), Arr(b)) => if |b| - n >= 0 then Arr(UndoItems(b, items, n)) else base
    case (ObjectDiff(changes), Obj(b)) => Obj(UndoFields(b, changes))
    case (PlainDiff(p, _), _) => p
    case _ => base
  }

  lemma NestedDiffInvertible(previous: Json, current: Json)
    ensures ApplyNested(previous, Nested(previous, current)) == current
    ensures UndoNested(current, Nested(previous, current)) == previous
  {
    match (previous, current)
    case (Arr(p), Arr(c)) => ArrayDiffInvertible(p, c);
    case (Obj(p), Obj(c)) =>
      assert ApplyNested(previous, Nested(previous, current)).fields == c;
      assert UndoNested(current, Nested(previous, current)).fields == p;
    case _ =>
  }

  // ---------------------------------------------------------------- what a diff must hold

  /** `d` is what happened to a map entry, without a diff inside it. */
  ghost predicate FlatEntry(p: map<string, Json>, c: map<string, Json>, f: string, d: FieldChange)
    requires f in p || f in c
  {
    if f !in p then d == Added(c[f]) else if f !in c then d == Removed(p[f]) else d == Modified(p[f], c[f], None)
  }

  /** An entry for every key that changed and for no other. */
  ghost predicate ExactObjectDiff(p: map<string, Json>, c: map<string, Json>, changes: map<string, FieldChange>) {
    && (forall f :: f in changes <==> (f in p && f !in c) || (f !in p && f in c) || (f in p && f in c && p[f] != c[f]))
    && (forall f :: f in changes && (f in p || f in c) ==> FlatEntry(p, c, f, changes[f]))
  }

  /** A diff of the kind its two values call for, with an entry for every part that changed and no other. */
  ghost predicate ExactNested(previous: Json, current: Json, d: NestedDiff) {
    match (previous, current)
    case (Arr(p), Arr(c)) =>
      && d.ArrayDiff? && d.lengthChange == |c| - |p| && Increasing(d.items, 0)
      && forall i: nat :: ItemAt(d.items, i) == ItemBetween(p, c, i)
    case (Obj(p), Obj(c)) => d.ObjectDiff? && ExactObjectDiff(p, c, d.changes)
    case _ => d == PlainDiff(previous, current)
  }

  lemma NestedIsExact(previous: Json, current: Json)
    ensures ExactNested(previous, current, Nested(previous, current))
  {
    match (previous, current)
    case (Arr(p), Arr(c)) =>
      ItemChangesIncreasing(p, c, 0);
      forall i: nat ensures ItemAt(ItemChanges(p, c, 0), i) == ItemBetween(p, c, i) {
        ItemChangesAt(p, c, 0, i);
      }
    case (Obj(p), Obj(c)) =>
    case _ =>
  }

  /** What a patch must say about a field that is present on both sides and differs. */
  ghost predicate ExactModification(p: Json, c: Json, d: FieldChange) {
    && d.Modified? && d.previous == p && d.current == c
    && (d.nested.Some? <==> c.Arr? || c.Obj?)
    && (d.nested.Some? ==>
          && ExactNested(p, c, d.nested.value)
          && ApplyNested(p, d.nested.value) == c && UndoNested(c, d.nested.value) == p)
  }

  /** What a patch must say about field `f`. */
  ghost predicate ExactField(ignore: seq<string>, p: map<string, Json>, c: map<string, Json>, d: map<string, FieldChange>, f: string) {
    if Ignored(ignore, f) || (f !in p && f !in c) then f !in d
    else if f !in p then f in d && d[f] == Added(c[f])
    else if f !in c then f in d && d[f] == Removed(p[f])
    else if p[f] == c[f] then f !in d
    else f in d && ExactModification(p[f], c[f], d[f])
  }

  /** Every field of either side is reported as what happened to it, nested diffs included. */
  ghost predicate ExactPatch(ignore: seq<string>, p: map<string, Json>, c: map<string, Json>, d: map<string, FieldChange>) {
    forall f :: ExactField(ignore, p, c, d, f)
  }

  lemma FieldChangesExact(ignore: seq<string>, p: map<string, Json>, c: map<string, Json>)
    ensures ExactPatch(ignore, p, c, FieldChanges(true, ignore, p, c))
  {
    forall f ensures ExactField(ignore, p, c, FieldChanges(true, ignore, p, c), f) {
      FieldChangeExact(ignore, p, c, f);
    }
  }

  lemma FieldChangeExact(ignore: seq<string>, p: map<string, Json>, c: map<string, Json>, f: string)
    ensures ExactField(ignore, p, c, FieldChanges(true, ignore, p, c), f)
  {
    if f in p && f in c {
      NestedIsExact(p[f], c[f]);
      NestedDiffInvertible(p[f], c[f]);
    }
  }

  function Visible(ignore: seq<string>, m: map<string, Json>): map<string, Json> {
    map f | f in m && !Ignored(ignore, f) :: m[f]
  }

  /** Applying or undoing a field diff, one field at a time. */
  lemma FieldDiffAt(deep: bool, ignore: seq<string>, previous: map<string, Json>, current: map<string, Json>, f: string)
    ensures var d := FieldChanges(deep, ignore, previous, current);
            if Ignored(ignore, f) then f !in d
            else
              && (f in ApplyFields(previous, d) <==> f in current)
              && (f in current ==> ApplyFields(previous, d)[f] == current[f])
              && (f in UndoFields(current, d) <==> f in previous)
              && (f in previous ==> UndoFields(current, d)[f] == previous[f])
  {
    var d := FieldChanges(deep, ignore, previous, current);
    if !Ignored(ignore, f) {
      if Differs(ignore, previous, current, f) {
        assert f in previous.Keys + current.Keys;
        assert f in d && d[f] == EntryFor(deep, previous, current, f);
      } else {
        assert f !in d;
      }
    }
  }

  /**
   The top-level diff carries the previous map to the current one and back on every field that is
   not ignored, and touches no ignored field.
   */
  lemma FieldDiffInvertible(deep: bool, ignore: seq<string>, previous: map<string, Json>, current: map<string, Json>)
    ensures var d := FieldChanges(deep, ignore, previous, current);
            && Visible(ignore, ApplyFields(previous, d)) == Visible(ignore, current)
            && Visible(ignore, UndoFields(current, d)) == Visible(ignore, previous)
            && (forall f :: f in d ==> !Ignored(ignore, f))
  {
    var d := FieldChanges(deep, ignore, previous, current);
    var applied, undone := ApplyFields(previous, d), UndoFields(current, d);
    forall f
      ensures !Ignored(ignore, f) ==>
                && (f in applied <==> f in current) && (f in current ==> applied[f] == current[f])
                && (f in undone <==> f in previous) && (f in previous ==> undone[f] == previous[f])
      ensures f in d ==> !Ignored(ignore, f)
    {
      FieldDiffAt(deep, ignore, previous, current, f);
    }
  }

  /** Three duplicate-free lists that split the diff's keys by kind of change. */
  ghost predicate Partitions(d: map<string, FieldChange>, changed: seq<string>, added: seq<string>, removed: seq<string>) {
    && NoRepeats(changed) && NoRepeats(added) && NoRepeats(removed)
    && (forall f :: f in changed <==> f in d && d[f].Modified?)
    && (forall f :: f in added <==> f in d && d[f].Added?)
    && (forall f :: f in removed <==> f in d && d[f].Removed?)
  }

  /** The four results `computeDetailedDiff` fills side by side. */
  datatype Report = Report(diff: map<string, FieldChange>, changed: seq<string>, added: seq<string>, removed: seq<string>)
  {
    ghost predicate Valid() {
      Partitions(diff, changed, added, removed) && |diff| == |changed| + |added| + |removed|
    }

    function Record(f: string, c: FieldChange): Report {
      Report(diff[f := c],
             if c.Modified? then changed + [f] else changed,
             if c.Added? then added + [f] else added,
             if c.Removed? then removed + [f] else removed)
    }
  }

  lemma AppendFresh(s: seq<string>, f: string)
    requires NoRepeats(s) && f !in s
    ensures NoRepeats(s + [f])
    ensures forall g :: g in s + [f] <==> g in s || g == f
  {
  }

  lemma RecordKeepsPartition(r: Report, f: string, c: FieldChange)
    requires f !in r.diff && r.Valid()
    ensures r.Record(f, c).Valid()
    ensures |r.Record(f, c).diff| == |r.diff| + 1
  {
    assert r.diff[f := c].Keys == r.diff.Keys + {f};
    match c
    case Added(_) => AddedKeepsPartition(r, f, c);
    case Removed(_) => RemovedKeepsPartition(r, f, c);
    case Modified(_, _, _) => ModifiedKeepsPartition(r, f, c);
  }

  lemma AddedKeepsPartition(r: Report, f: string, c: FieldChange)
    requires f !in r.diff && c.Added? && Partitions(r.diff, r.changed, r.added, r.removed)
    ensures Partitions(r.diff[f := c], r.changed, r.added + [f], r.removed)
  {
    AppendFresh(r.added, f);
  }

  lemma RemovedKeepsPartition(r: Report, f: string, c: FieldChange)
    requires f !in r.diff && c.Removed? && Partitions(r.diff, r.changed, r.added, r.removed)
    ensures Partitions(r.diff[f := c], r.changed, r.added, r.removed + [f])
  {
    AppendFresh(r.removed, f);
  }

  lemma ModifiedKeepsPartition(r: Report, f: string, c: FieldChange)
    requires f !in r.diff && c.Modified? && Partitions(r.diff, r.changed, r.added, r.removed)
    ensures Partitions(r.diff[f := c], r.changed + [f], r.added, r.removed)
  {
    AppendFresh(r.changed, f);
  }

  /** The part of `whole` already visited when the fields in `rest` are still to come. */
  ghost predicate Visited(whole: map<string, FieldChange>, diff: map<string, FieldChange>, rest: set<string>) {
    diff == map f | f in whole && f !in rest :: whole[f]
  }

  lemma VisitOne(ignore: seq<string>, previous: map<string, Json>, current: map<string, Json>,
                 diff: map<string, FieldChange>, rest: set<string>, f: string)
    requires f in rest && f in previous.Keys + current.Keys
    requires Visited(FieldChanges(true, ignore, previous, current), diff, rest)
    ensures f !in diff
    ensures Visited(FieldChanges(true, ignore, previous, current),
                    if Differs(ignore, previous, current, f) then diff[f := EntryFor(true, previous, current, f)] else diff,
                    rest - {f})
  {
  }

  /** `computeMapDiff`: keys are visited in any order. */
  method ComputeMapDiff(previous: map<string, Json>, current: map<string, Json>) returns (d: NestedDiff)
    ensures d == Nested(Obj(previous), Obj(current))
  {
    var rest := previous.Keys + current.Keys;
    ghost var whole := Nested(Obj(previous), Obj(current)).changes;
    var changes: map<string, FieldChange> := map[];
    while rest != {}
      invariant rest <= previous.Keys + current.Keys
      invariant changes.Keys == whole.Keys - rest
      invariant forall f :: f in changes ==> changes[f] == whole[f]
      decreases rest
    {
      var f :| f in rest;
      if f !in previous && f in current {
        changes := changes[f := Added(current[f])];
      } else if f in previous && f !in current {
        changes := changes[f := Removed(previous[f])];
      } else if previous[f] != current[f] {
        changes := changes[f := Modified(previous[f], current[f], None)];
      }
      rest := rest - {f};
    }
    assert changes == whole;
    d := ObjectDiff(changes);
  }

  method ComputeNestedDiff(previous: Json, current: Json) returns (d: NestedDiff)
    ensures d == Nested(previous, current)
  {
    match (previous, current)
    case (Arr(p), Arr(c)) => d := ComputeArrayDiff(p, c);
    case (Obj(p), Obj(c)) => d := ComputeMapDiff(p, c);
    case _ => d := PlainDiff(previous, current);
  }

  /** One round of the field loop of `computeDetailedDiff`. */
  method CompareField(ignore: seq<string>, previous: map<string, Json>, current: map<string, Json>, f: string)
    returns (entry: Option<FieldChange>)
    requires f in previous || f in current
    ensures entry.Some? <==> Differs(ignore, previous, current, f)
    ensures entry.Some? ==> entry.value == EntryFor(true, previous, current, f)
  {
    var skip := ShouldIgnoreField(ignore, f);
    if skip {
      return None;
    }
    if f !in previous && f in current {
      return Some(Added(current[f]));
    } else if f in previous && f !in current {
      return Some(Removed(previous[f]));
    } else if previous[f] != current[f] {
      if IsComplex(current[f]) {
        var nested := ComputeNestedDiff(previous[f], current[f]);
        return Some(Modified(previous[f], current[f], Some(nested)));
      }
      return Some(Modified(previous[f], current[f], None));
    }
    return None;
  }

  /** The field loop of `computeDetailedDiff`, for every order in which the fields may be visited. */
  method CompareFields(ignore: seq<string>, previous: map<string, Json>, current: map<string, Json>)
    returns (r: Report, changedCount: nat)
    ensures r.diff == FieldChanges(true, ignore, previous, current)
    ensures r.Valid() && changedCount == |r.diff|
  {
    ghost var whole := FieldChanges(true, ignore, previous, current);
    var rest := previous.Keys + current.Keys;
    r, changedCount := Report(map[], [], [], []), 0;
    while rest != {}
      invariant rest <= previous.Keys + current.Keys
      invariant Visited(whole, r.diff, rest)
      invariant r.Valid() && changedCount == |r.diff|
      decreases rest
    {
      var f :| f in rest;
      r, changedCount := RecordField(ignore, previous, current, f, r, changedCount, rest);
      rest := rest - {f};
    }
    assert r.diff == whole;
  }

  /** Compares one field and files what it finds. */
  method RecordField(ignore: seq<string>, previous: map<string, Json>, current: map<string, Json>, f: string,
                     before: Report, count: nat, ghost rest: set<string>)
    returns (r: Report, changedCount: nat)
    requires f in rest && f in previous.Keys + current.Keys
    requires Visited(FieldChanges(true, ignore, previous, current), before.diff, rest)
    requires before.Valid() && count == |before.diff|
    ensures Visited(FieldChanges(true, ignore, previous, current), r.diff, rest - {f})
    ensures r.Valid() && changedCount == |r.diff|
  {
    VisitOne(ignore, previous, current, before.diff, rest, f);
    r, changedCount := before, count;
    var entry := CompareField(ignore, previous, current, f);
    if entry.Some? {
      RecordKeepsPartition(r, f, entry.value);
      r, changedCount := r.Record(f, entry.value), changedCount + 1;
    }
  }
}

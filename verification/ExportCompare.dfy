/**
 The CLI's comparison of two exports: index both by record key, compare shared keys field by
 field, count, and score.  `show` is Go's `%v` rendering, on which field equality rests.
 */
module ExportCompare {
  import opened Wrappers
  import opened Json

  type Record = map<string, Json>

  datatype Difference = Difference(recordId: string, field: string, value1: Option<Json>, value2: Option<Json>)

  datatype Summary = Summary(
    total1: nat, total2: nat, identical: nat, modified: nat, onlyInFirst: nat, onlyInSecond: nat, score: real)

  // ---------------------------------------------------------------- indexing

  const KEY_FIELDS := ["name", "experiment_type", "target", "created_at"]

  function JoinBar(parts: seq<string>): string {
    if parts == [] then "" else if |parts| == 1 then parts[0] else parts[0] + "|" + JoinBar(parts[1..])
  }

  function KeyParts(show: Json -> string, r: Record, fields: seq<string>): seq<string> {
    if fields == [] then []
    else (if fields[0] in r then [show(r[fields[0]])] else []) + KeyParts(show, r, fields[1..])
  }

  function RecordKey(show: Json -> string, r: Record): string {
    if "id" in r && r["id"].Str? then r["id"].s else JoinBar(KeyParts(show, r, KEY_FIELDS))
  }

  /** A record's ID, when it has one that is a string. */
  function StringId(r: Record): Option<string> {
    if "id" in r && r["id"].Str? then Some(r["id"].s) else None
  }

  function ShownPart(show: Json -> string, r: Record, field: string): seq<string> {
    if field in r then [show(r[field])] else []
  }

  /** Records with string IDs share a key exactly when they have the same ID. */
  lemma IdsAreKeys(show: Json -> string, a: Record, b: Record)
    requires StringId(a).Some? && StringId(b).Some?
    ensures RecordKey(show, a) == RecordKey(show, b) <==> StringId(a) == StringId(b)
    ensures RecordKey(show, a) == StringId(a).value
  {
  }

  /** Without a string ID the key joins, in this order, what there is of four fields. */
  lemma KeyWithoutId(show: Json -> string, r: Record)
    requires StringId(r).None?
    ensures RecordKey(show, r) == JoinBar(ShownPart(show, r, "name") + ShownPart(show, r, "experiment_type")
                                          + ShownPart(show, r, "target") + ShownPart(show, r, "created_at"))
  {
    var a, b, c, d := ShownPart(show, r, "name"), ShownPart(show, r, "experiment_type"),
                      ShownPart(show, r, "target"), ShownPart(show, r, "created_at");
    assert KEY_FIELDS[1..] == ["experiment_type", "target", "created_at"];
    assert KEY_FIELDS[1..][1..] == ["target", "created_at"] && KEY_FIELDS[1..][1..][1..] == ["created_at"];
    assert KEY_FIELDS[1..][1..][1..][1..] == [];
    assert KeyParts(show, r, ["created_at"]) == d + [];
    assert KeyParts(show, r, ["target", "created_at"]) == c + d;
    assert KeyParts(show, r, ["experiment_type", "target", "created_at"]) == b + (c + d);
    assert a + (b + (c + d)) == a + b + c + d;
  }

  /** The parts stand in order with a bar between each two. */
  lemma {:induction false} JoinBarPush(parts: seq<string>, last: string)
    ensures JoinBar(parts + [last]) == if parts == [] then last else JoinBar(parts) + "|" + last
  {
    if parts == [] {
    } else {
      assert (parts + [last])[1..] == parts[1..] + [last];
      JoinBarPush(parts[1..], last);
      if |parts| > 1 {
        assert parts[0] + "|" + (JoinBar(parts[1..]) + "|" + last) == (parts[0] + "|" + JoinBar(parts[1..])) + "|" + last;
      } else {
        assert parts[0] + "|" + last == JoinBar(parts) + "|" + last;
      }
    }
  }

  /** A later record replaces an earlier one with the same key. */
  function Index(show: Json -> string, data: seq<Record>): map<string, Record> {
    if data == [] then map[]
    else Index(show, data[..|data| - 1])[RecordKey(show, data[|data| - 1]) := data[|data| - 1]]
  }

  method CreateRecordIndex(show: Json -> string, data: seq<Record>) returns (index: map<string, Record>)
    ensures index == Index(show, data)
  {
    index := map[];
    for i := 0 to |data|
      invariant index == Index(show, data[..i])
    {
      assert data[..i + 1][..i] == data[..i];
      index := index[RecordKey(show, data[i]) := data[i]];
    }
    assert data[..|data|] == data;
  }

  ghost predicate UniqueKeys(show: Json -> string, data: seq<Record>) {
    forall i, j :: 0 <= i < j < |data| ==> RecordKey(show, data[i]) != RecordKey(show, data[j])
  }

  lemma IndexKeys(show: Json -> string, data: seq<Record>)
    ensures forall k :: k in Index(show, data) <==> exists i :: 0 <= i < |data| && RecordKey(show, data[i]) == k
    ensures |Index(show, data)| <= |data|
  {
    IndexSize(show, data);
    forall k ensures k in Index(show, data) <==> exists i :: 0 <= i < |data| && RecordKey(show, data[i]) == k {
      IndexKey(show, data, k);
    }
  }

  lemma {:induction false} IndexSize(show: Json -> string, data: seq<Record>)
    ensures |Index(show, data)| <= |data|
  {
    if data == [] {
    } else {
      var init, last := data[..|data| - 1], RecordKey(show, data[|data| - 1]);
      IndexSize(show, init);
      assert Index(show, data).Keys == Index(show, init).Keys + {last};
    }
  }

  lemma {:induction false} IndexKey(show: Json -> string, data: seq<Record>, k: string)
    ensures k in Index(show, data) <==> exists i :: 0 <= i < |data| && RecordKey(show, data[i]) == k
  {
    if data == [] {
    } else {
      var init := data[..|data| - 1];
      IndexKey(show, init, k);
      if k in Index(show, init) {
        var i :| 0 <= i < |init| && RecordKey(show, init[i]) == k;
        assert data[i] == init[i];
      }
      if i :| 0 <= i < |data| && RecordKey(show, data[i]) == k {
        assert i < |init| ==> init[i] == data[i];
      }
    }
  }

  /** No later record of the list has the key of the i-th. */
  ghost predicate LastOfKey(show: Json -> string, data: seq<Record>, i: nat)
    requires i < |data|
  {
    forall j :: i < j < |data| ==> RecordKey(show, data[j]) != RecordKey(show, data[i])
  }

  ghost predicate KeyAbsent(show: Json -> string, r: Record, data: seq<Record>) {
    forall j :: 0 <= j < |data| ==> RecordKey(show, data[j]) != RecordKey(show, r)
  }

  /** The index gives, for every key, the last record that has it. */
  lemma {:induction false} IndexHoldsLast(show: Json -> string, data: seq<Record>, i: nat)
    requires i < |data| && LastOfKey(show, data, i)
    ensures RecordKey(show, data[i]) in Index(show, data) && Index(show, data)[RecordKey(show, data[i])] == data[i]
  {
    var init := data[..|data| - 1];
    if i == |data| - 1 {
    } else {
      assert init[i] == data[i];
      assert LastOfKey(show, init, i) by {
        forall j | i < j < |init| ensures RecordKey(show, init[j]) != RecordKey(show, init[i]) {
          assert init[j] == data[j];
        }
      }
      IndexHoldsLast(show, init, i);
    }
  }

  lemma {:induction false} IndexFromLast(show: Json -> string, data: seq<Record>, k: string) returns (i: nat)
    requires k in Index(show, data)
    ensures i < |data| && LastOfKey(show, data, i) && RecordKey(show, data[i]) == k && Index(show, data)[k] == data[i]
  {
    var init, last := data[..|data| - 1], data[|data| - 1];
    if RecordKey(show, last) == k {
      i := |data| - 1;
    } else {
      i := IndexFromLast(show, init, k);
      forall j | i < j < |data| ensures RecordKey(show, data[j]) != RecordKey(show, data[i]) {
        assert j < |init| ==> init[j] == data[j];
      }
    }
  }

  /** The i-th record is the last with its key, and the other side has none with that key. */
  ghost predicate OneSided(show: Json -> string, data: seq<Record>, other: seq<Record>, i: nat) {
    i < |data| && LastOfKey(show, data, i) && KeyAbsent(show, data[i], other)
  }

  /** The records are exactly those of `data` that are the last with their key and whose key `other` lacks. */
  ghost predicate ListsOneSided(show: Json -> string, data: seq<Record>, other: seq<Record>, records: seq<Record>) {
    && (forall i: nat :: OneSided(show, data, other, i) ==> data[i] in records)
    && (forall r :: r in records ==> exists i: nat :: OneSided(show, data, other, i) && data[i] == r)
  }

  lemma OneSidedListed(show: Json -> string, data: seq<Record>, other: seq<Record>, i: nat, records: seq<Record>)
    requires OneSided(show, data, other, i)
    requires Lists(records, Index(show, data), Index(show, data).Keys - Index(show, other).Keys)
    ensures data[i] in records
  {
    var x, y, k := Index(show, data), Index(show, other), RecordKey(show, data[i]);
    IndexHoldsLast(show, data, i);
    IndexKeys(show, other);
    assert k in x.Keys - y.Keys;
    var keys :| Collected(records, keys, x, x.Keys - y.Keys, {});
    assert k in keys;
    var n :| 0 <= n < |keys| && keys[n] == k;
    assert records[n] == data[i];
  }

  lemma ListedOneSided(show: Json -> string, data: seq<Record>, other: seq<Record>, r: Record, records: seq<Record>)
    returns (i: nat)
    requires r in records && Lists(records, Index(show, data), Index(show, data).Keys - Index(show, other).Keys)
    ensures OneSided(show, data, other, i) && data[i] == r
  {
    var x, y := Index(show, data), Index(show, other);
    var keys :| Collected(records, keys, x, x.Keys - y.Keys, {});
    var n :| 0 <= n < |records| && records[n] == r;
    assert keys[n] in keys;
    i := IndexFromLast(show, data, keys[n]);
    forall j | 0 <= j < |other| ensures RecordKey(show, other[j]) != RecordKey(show, data[i]) {
      IndexKey(show, other, keys[n]);
    }
  }

  /** What the comparison lists as one-sided, in terms of the records themselves. */
  lemma OneSidedExactly(show: Json -> string, data: seq<Record>, other: seq<Record>, records: seq<Record>)
    requires Lists(records, Index(show, data), Index(show, data).Keys - Index(show, other).Keys)
    ensures ListsOneSided(show, data, other, records)
  {
    forall i: nat | OneSided(show, data, other, i) ensures data[i] in records {
      OneSidedListed(show, data, other, i, records);
    }
    forall r | r in records ensures exists i: nat :: OneSided(show, data, other, i) && data[i] == r {
      var i := ListedOneSided(show, data, other, r, records);
    }
  }

  /** Of shared IDs, the fields that differ are the ones reported, with both values in their places. */
  lemma ReportedExactly(show: Json -> string, ignore: set<string>, id: string, a: Record, b: Record, f: string)
    ensures (exists d :: Reported(show, ignore, id, a, b, d) && d.field == f) <==>
            f !in ignore && ((f in a && f !in b) || (f !in a && f in b) || (f in a && f in b && show(a[f]) != show(b[f])))
    ensures forall d :: Reported(show, ignore, id, a, b, d) ==>
              && d.recordId == id
              && (d.value1.Some? <==> d.field in a) && (d.value1.Some? && d.field in a ==> d.value1.value == a[d.field])
              && (d.value2.Some? <==> d.field in b) && (d.value2.Some? && d.field in b ==> d.value2.value == b[d.field])
  {
    assert FieldDifference(id, a, b, f).field == f;
    if f !in ignore && f in a.Keys + b.Keys && !FieldAgrees(show, a, b, f) {
      assert Reported(show, ignore, id, a, b, FieldDifference(id, a, b, f));
    }
  }

  lemma UniqueKeysPush(show: Json -> string, init: seq<Record>, r: Record)
    ensures UniqueKeys(show, init + [r]) <==> UniqueKeys(show, init) && RecordKey(show, r) !in Index(show, init)
  {
    IndexKeys(show, init);
    var data := init + [r];
    if UniqueKeys(show, data) {
      forall i, j | 0 <= i < j < |init| ensures RecordKey(show, init[i]) != RecordKey(show, init[j]) {
        assert data[i] == init[i] && data[j] == init[j];
      }
      forall i | 0 <= i < |init| ensures RecordKey(show, init[i]) != RecordKey(show, r) {
        assert data[i] == init[i] && data[|init|] == r;
      }
    }
  }

  /** The index has one entry per record exactly when no two records share a key. */
  lemma {:induction false} IndexFullExactly(show: Json -> string, data: seq<Record>)
    ensures |Index(show, data)| == |data| <==> UniqueKeys(show, data)
  {
    if data == [] {
    } else {
      var init, last := data[..|data| - 1], data[|data| - 1];
      assert data == init + [last];
      IndexFullExactly(show, init);
      UniqueKeysPush(show, init, last);
      assert |Index(show, init)| <= |init| by { IndexKeys(show, init); }
      assert Index(show, data).Keys == Index(show, init).Keys + {RecordKey(show, last)};
    }
  }

  // ---------------------------------------------------------------- comparing records

  ghost predicate FieldAgrees(show: Json -> string, a: Record, b: Record, f: string) {
    (f in a <==> f in b) && (f in a && f in b ==> show(a[f]) == show(b[f]))
  }

  ghost predicate SameRecord(show: Json -> string, ignore: set<string>, a: Record, b: Record) {
    forall f :: f in a.Keys + b.Keys && f !in ignore ==> FieldAgrees(show, a, b, f)
  }

  ghost function FieldDifference(id: string, a: Record, b: Record, f: string): Difference {
    Difference(id, f, if f in a then Some(a[f]) else None, if f in b then Some(b[f]) else None)
  }

  /** A difference that comparing two records must report. */
  ghost predicate Reported(show: Json -> string, ignore: set<string>, id: string, a: Record, b: Record, d: Difference) {
    && d.field in a.Keys + b.Keys && d.field !in ignore && !FieldAgrees(show, a, b, d.field)
    && d == FieldDifference(id, a, b, d.field)
  }

  /** `compareRecords`, for every order of visiting the fields. */
  method CompareRecords(show: Json -> string, id: string, a: Record, b: Record, ignoreFields: seq<string>)
    returns (diffs: seq<Difference>)
    ensures diffs == [] <==> SameRecord(show, Elements(ignoreFields), a, b)
    ensures forall d :: d in diffs <==> Reported(show, Elements(ignoreFields), id, a, b, d)
    ensures forall i, j :: 0 <= i < j < |diffs| ==> diffs[i].field != diffs[j].field
  {
    ghost var fields, ignore := a.Keys + b.Keys, Elements(ignoreFields);
    var rest := a.Keys + b.Keys;
    diffs := [];
    while rest != {}
      invariant rest <= fields
      invariant forall d :: d in diffs <==> d.field !in rest && Reported(show, ignore, id, a, b, d)
      invariant forall i, j :: 0 <= i < j < |diffs| ==> diffs[i].field != diffs[j].field
      decreases rest
    {
      var f :| f in rest;
      rest := rest - {f};
      assert forall d :: d in diffs ==> d.field != f;
      if f !in ignoreFields {
        if f !in a && f in b {
          diffs := diffs + [Difference(id, f, None, Some(b[f]))];
        } else if f in a && f !in b {
          diffs := diffs + [Difference(id, f, Some(a[f]), None)];
        } else if f in a && f in b && show(a[f]) != show(b[f]) {
          diffs := diffs + [Difference(id, f, Some(a[f]), Some(b[f]))];
        }
      }
    }
    if !SameRecord(show, ignore, a, b) {
      var f :| f in fields && f !in ignore && !FieldAgrees(show, a, b, f);
      assert FieldDifference(id, a, b, f) in diffs;
    }
    if diffs != [] {
      assert diffs[0] in diffs;
      assert !FieldAgrees(show, a, b, diffs[0].field) && diffs[0].field !in ignore;
    }
  }

  // ---------------------------------------------------------------- comparing exports

  /** Shared keys whose records agree on every field that is not ignored. */
  ghost function Identical(show: Json -> string, ignore: set<string>, x: map<string, Record>, y: map<string, Record>): set<string> {
    set k | k in x.Keys * y.Keys && SameRecord(show, ignore, x[k], y[k])
  }

  /** Twice the identical records, as a share of all. */
  ghost predicate IsScore(score: real, identical: nat, total: nat) {
    if total > 0 then score * total as real == (2 * identical) as real else score == 0.0
  }

  function Score(identical: nat, total: nat): (score: real)
    ensures 2 * identical <= total ==> 0.0 <= score <= 1.0
    ensures total > 0 ==> (score == 1.0 <==> 2 * identical == total)
    ensures IsScore(score, identical, total)
  {
    if total > 0 then
      UnitQuotient((identical * 2) as real, total as real);
      (identical * 2) as real / total as real
    else 0.0
  }

  lemma UnitQuotient(d: real, t: real)
    requires 0.0 <= d && t > 0.0
    ensures 0.0 <= d / t && d / t * t == d
    ensures d / t <= 1.0 <==> d <= t
    ensures d / t == 1.0 <==> d == t
  {
    assert d / t * t == d;
  }

  ghost function Compare(show: Json -> string, ignore: set<string>, data1: seq<Record>, data2: seq<Record>): Summary {
    var x, y := Index(show, data1), Index(show, data2);
    var same := Identical(show, ignore, x, y);
    Summary(|data1|, |data2|, |same|, |x.Keys * y.Keys - same|, |x.Keys - y.Keys|, |y.Keys - x.Keys|,
            Score(|same|, |data1| + |data2|))
  }

  /** The records of `index` under the keys of `wanted` visited so far, each once. */
  ghost predicate Collected(records: seq<Record>, keys: seq<string>, index: map<string, Record>, wanted: set<string>, rest: set<string>) {
    && |records| == |keys| && NoRepeats(keys)
    && (forall i :: 0 <= i < |keys| ==> keys[i] in index && records[i] == index[keys[i]])
    && (forall k :: k in keys <==> k in wanted && k !in rest)
  }

  /** The records of `index` under the keys in `wanted`, each once, in some order of the keys. */
  ghost predicate Lists(records: seq<Record>, index: map<string, Record>, wanted: set<string>) {
    |records| == |wanted| && exists keys :: Collected(records, keys, index, wanted, {})
  }

  lemma CollectOne(records: seq<Record>, keys: seq<string>, index: map<string, Record>, wanted: set<string>, rest: set<string>, k: string)
    requires Collected(records, keys, index, wanted, rest) && k in rest && (k in wanted ==> k in index)
    ensures k in wanted ==> Collected(records + [index[k]], keys + [k], index, wanted, rest - {k})
    ensures k !in wanted ==> Collected(records, keys, index, wanted, rest - {k})
  {
  }

  lemma {:induction false} ListSize(keys: seq<string>, wanted: set<string>)
    requires NoRepeats(keys) && forall k :: k in keys <==> k in wanted
    ensures |keys| == |wanted|
  {
    if keys == [] {
      assert wanted == {};
    } else {
      var init, last := keys[..|keys| - 1], keys[|keys| - 1];
      assert keys == init + [last];
      ListSize(init, wanted - {last});
    }
  }

  /** `n` keys of `wanted` have been visited when those in `rest` are still to come. */
  ghost predicate Counted(wanted: set<string>, rest: set<string>, n: nat) {
    n == |wanted - rest|
  }

  lemma CountOne(wanted: set<string>, rest: set<string>, n: nat, k: string)
    requires Counted(wanted, rest, n) && k in rest
    ensures Counted(wanted, rest - {k}, if k in wanted then n + 1 else n)
  {
    assert wanted - (rest - {k}) == (if k in wanted then wanted - rest + {k} else wanted - rest);
  }

  lemma CountStart(wanted: set<string>, rest: set<string>)
    requires wanted <= rest
    ensures Counted(wanted, rest, 0)
  {
    assert wanted - rest == {};
  }

  lemma CountEnd(wanted: set<string>, n: nat)
    requires Counted(wanted, {}, n)
    ensures n == |wanted|
  {
    assert wanted - {} == wanted;
  }

  /** A difference between the records two exports hold under the same key. */
  ghost predicate ReportedFor(show: Json -> string, ignore: set<string>, x: map<string, Record>, y: map<string, Record>, d: Difference) {
    && d.recordId in x && d.recordId in y
    && Reported(show, ignore, d.recordId, x[d.recordId], y[d.recordId], d)
  }

  /** `differences` holds exactly what the keys visited so far must report. */
  ghost predicate Gathered(show: Json -> string, ignore: set<string>, x: map<string, Record>, y: map<string, Record>,
                           differences: seq<Difference>, rest: set<string>) {
    && NoRepeats(differences)
    && forall d :: d in differences <==> d.recordId !in rest && ReportedFor(show, ignore, x, y, d)
  }

  lemma NoRepeatsJoin(a: seq<Difference>, b: seq<Difference>)
    requires NoRepeats(a) && NoRepeats(b) && forall d :: d in a ==> d !in b
    ensures NoRepeats(a + b)
  {
    forall i, j | 0 <= i < j < |a + b| ensures (a + b)[i] != (a + b)[j] {
      if i < |a| <= j {
        assert a[i] in a && b[j - |a|] in b;
      }
    }
  }

  lemma GatherOne(show: Json -> string, ignore: set<string>, x: map<string, Record>, y: map<string, Record>,
                  differences: seq<Difference>, rest: set<string>, id: string, diffs: seq<Difference>)
    requires Gathered(show, ignore, x, y, differences, rest) && id in rest && id in x && id in y
    requires NoRepeats(diffs) && forall d :: d in diffs <==> Reported(show, ignore, id, x[id], y[id], d)
    ensures Gathered(show, ignore, x, y, differences + diffs, rest - {id})
  {
    NoRepeatsJoin(differences, diffs);
    forall d ensures d in differences + diffs <==> d.recordId !in rest - {id} && ReportedFor(show, ignore, x, y, d) {
      assert d in differences + diffs <==> d in differences || d in diffs;
      if d in diffs {
        assert Reported(show, ignore, id, x[id], y[id], d);
      }
    }
  }

  lemma GatherNone(show: Json -> string, ignore: set<string>, x: map<string, Record>, y: map<string, Record>,
                   differences: seq<Difference>, rest: set<string>, id: string)
    requires Gathered(show, ignore, x, y, differences, rest) && id in rest && id !in y
    ensures Gathered(show, ignore, x, y, differences, rest - {id})
  {
  }

  /** Compares the two records of a shared key and adds what they must report. */
  method CompareShare(show: Json -> string, ignoreFields: seq<string>, x: map<string, Record>, y: map<string, Record>,
                      before: seq<Difference>, ghost rest: set<string>, id: string)
    returns (same: bool, differences: seq<Difference>)
    requires id in x && id in y && id in rest && Gathered(show, Elements(ignoreFields), x, y, before, rest)
    ensures same <==> SameRecord(show, Elements(ignoreFields), x[id], y[id])
    ensures Gathered(show, Elements(ignoreFields), x, y, differences, rest - {id})
    ensures same ==> differences == before
    ensures !same ==> differences != []
  {
    var diffs := CompareRecords(show, id, x[id], y[id], ignoreFields);
    GatherOne(show, Elements(ignoreFields), x, y, before, rest, id, diffs);
    same := |diffs| == 0;
    differences := before;
    if !same {
      differences := differences + diffs;
    } else {
      assert before + diffs == before;
    }
  }

  /** The first loop of `compareExports`: shared keys, and those only on the first side. */
  method CompareShared(show: Json -> string, ignoreFields: seq<string>, x: map<string, Record>, y: map<string, Record>)
    returns (identical: nat, modified: nat, onlyInFirst: seq<Record>, differences: seq<Difference>)
    ensures var same := Identical(show, Elements(ignoreFields), x, y);
            identical == |same| && modified == |x.Keys * y.Keys - same|
    ensures Lists(onlyInFirst, x, x.Keys - y.Keys)
    ensures forall d :: d in differences <==> ReportedFor(show, Elements(ignoreFields), x, y, d)
    ensures NoRepeats(differences)
  {
    ghost var same := Identical(show, Elements(ignoreFields), x, y);
    ghost var changed, only := x.Keys * y.Keys - same, x.Keys - y.Keys;
    var rest := x.Keys;
    identical, modified, onlyInFirst, differences := 0, 0, [], [];
    ghost var keys := [];
    CountStart(same, rest);
    CountStart(changed, rest);
    while rest != {}
      invariant rest <= x.Keys
      invariant Counted(same, rest, identical) && Counted(changed, rest, modified)
      invariant Collected(onlyInFirst, keys, x, only, rest)
      invariant Gathered(show, Elements(ignoreFields), x, y, differences, rest)
      decreases rest
    {
      var id :| id in rest;
      CountOne(same, rest, identical, id);
      CountOne(changed, rest, modified, id);
      CollectOne(onlyInFirst, keys, x, only, rest, id);
      if id in y {
        var equal;
        equal, differences := CompareShare(show, ignoreFields, x, y, differences, rest, id);
        if equal {
          identical := identical + 1;
        } else {
          modified := modified + 1;
        }
      } else {
        GatherNone(show, Elements(ignoreFields), x, y, differences, rest, id);
        onlyInFirst := onlyInFirst + [x[id]];
        keys := keys + [id];
      }
      rest := rest - {id};
    }
    CountEnd(same, identical);
    CountEnd(changed, modified);
    ListSize(keys, only);
  }

  /** The second loop: keys only on the second side. */
  method OnlyIn(x: map<string, Record>, y: map<string, Record>) returns (records: seq<Record>)
    ensures Lists(records, y, y.Keys - x.Keys)
  {
    records := [];
    ghost var keys := [];
    var rest := y.Keys;
    while rest != {}
      invariant rest <= y.Keys && Collected(records, keys, y, y.Keys - x.Keys, rest)
      decreases rest
    {
      var id :| id in rest;
      CollectOne(records, keys, y, y.Keys - x.Keys, rest, id);
      if id !in x {
        records := records + [y[id]];
        keys := keys + [id];
      }
      rest := rest - {id};
    }
    ListSize(keys, y.Keys - x.Keys);
  }

  /** `compareExports`. */
  method CompareExports(show: Json -> string, data1: seq<Record>, data2: seq<Record>, ignoreFields: seq<string>)
    returns (s: Summary, differences: seq<Difference>, onlyInFirst: seq<Record>, onlyInSecond: seq<Record>)
    ensures s == Compare(show, Elements(ignoreFields), data1, data2)
    ensures var x, y := Index(show, data1), Index(show, data2);
            forall d :: d in differences <==> ReportedFor(show, Elements(ignoreFields), x, y, d)
    ensures NoRepeats(differences)
    ensures var x, y := Index(show, data1), Index(show, data2);
            Lists(onlyInFirst, x, x.Keys - y.Keys) && Lists(onlyInSecond, y, y.Keys - x.Keys)
    ensures ListsOneSided(show, data1, data2, onlyInFirst) && ListsOneSided(show, data2, data1, onlyInSecond)
  {
    var x := CreateRecordIndex(show, data1);
    var y := CreateRecordIndex(show, data2);
    var identical, modified;
    identical, modified, onlyInFirst, differences := CompareShared(show, ignoreFields, x, y);
    onlyInSecond := OnlyIn(x, y);
    var total := |data1| + |data2|;
    var score := 0.0;
    if total > 0 {
      score := (identical * 2) as real / total as real;
    }
    s := Summary(|data1|, |data2|, identical, modified, |onlyInFirst|, |onlyInSecond|, score);
    OneSidedExactly(show, data1, data2, onlyInFirst);
    OneSidedExactly(show, data2, data1, onlyInSecond);
  }

  lemma SharedAndOwn(x: set<string>, y: set<string>, same: set<string>)
    requires same <= x * y
    ensures |same| + |x * y - same| + |x - y| == |x|
    ensures |same| + |x * y - same| + |y - x| == |y|
  {
    assert x == same + (x * y - same) + (x - y);
    assert y == same + (x * y - same) + (y - x);
  }

  /** Every indexed record of either side is counted exactly once. */
  lemma CountsCover(show: Json -> string, ignore: set<string>, data1: seq<Record>, data2: seq<Record>)
    ensures var s := Compare(show, ignore, data1, data2);
            && s.identical + s.modified + s.onlyInFirst == |Index(show, data1)|
            && s.identical + s.modified + s.onlyInSecond == |Index(show, data2)|
  {
    var x, y := Index(show, data1), Index(show, data2);
    SharedAndOwn(x.Keys, y.Keys, Identical(show, ignore, x, y));
  }

  /** The same difference seen from the other side. */
  function Mirrored(d: Difference): Difference {
    d.(value1 := d.value2, value2 := d.value1)
  }

  lemma MirroredReport(show: Json -> string, ignore: set<string>, x: map<string, Record>, y: map<string, Record>, d: Difference)
    ensures ReportedFor(show, ignore, x, y, d) <==> ReportedFor(show, ignore, y, x, Mirrored(d))
  {
    if d.recordId in x && d.recordId in y {
      var a, b := x[d.recordId], y[d.recordId];
      assert FieldAgrees(show, a, b, d.field) <==> FieldAgrees(show, b, a, d.field);
    }
  }

  /**
   Swapping the inputs swaps the one-sided counts, exchanges the two values of every reported
   difference, and leaves the other counts and the score as they are.
   */
  lemma SwapSwapsSides(show: Json -> string, ignore: set<string>, data1: seq<Record>, data2: seq<Record>)
    ensures var s := Compare(show, ignore, data1, data2);
            var t := Compare(show, ignore, data2, data1);
            t == Summary(s.total2, s.total1, s.identical, s.modified, s.onlyInSecond, s.onlyInFirst, s.score)
    ensures var x, y := Index(show, data1), Index(show, data2);
            forall d :: ReportedFor(show, ignore, x, y, d) <==> ReportedFor(show, ignore, y, x, Mirrored(d))
  {
    var x, y := Index(show, data1), Index(show, data2);
    SwapKeepsIdentical(show, ignore, x, y);
    assert x.Keys * y.Keys == y.Keys * x.Keys;
    forall d ensures ReportedFor(show, ignore, x, y, d) <==> ReportedFor(show, ignore, y, x, Mirrored(d)) {
      MirroredReport(show, ignore, x, y, d);
    }
  }

  /** The shared keys whose records show the same on every field of either that is not ignored. */
  ghost function AgreeingKeys(show: Json -> string, ignore: set<string>, x: map<string, Record>, y: map<string, Record>): set<string> {
    set k | k in x.Keys * y.Keys &&
      forall f :: f !in ignore ==> (f in x[k] <==> f in y[k]) && (f in x[k] && f in y[k] ==> show(x[k][f]) == show(y[k][f]))
  }

  /** What every number of the summary counts. */
  lemma SummaryExactly(show: Json -> string, ignore: set<string>, data1: seq<Record>, data2: seq<Record>)
    ensures var s, x, y := Compare(show, ignore, data1, data2), Index(show, data1), Index(show, data2);
            && s.total1 == |data1| && s.total2 == |data2|
            && s.identical == |AgreeingKeys(show, ignore, x, y)|
            && s.modified == |x.Keys * y.Keys| - s.identical
            && s.onlyInFirst == |x.Keys - y.Keys| && s.onlyInSecond == |y.Keys - x.Keys|
  {
    var x, y := Index(show, data1), Index(show, data2);
    AgreeingIsIdentical(show, ignore, x, y);
    SizeWithout(x.Keys * y.Keys, Identical(show, ignore, x, y));
  }

  lemma SizeWithout(all: set<string>, part: set<string>)
    requires part <= all
    ensures |all - part| == |all| - |part|
  {
    assert all == part + (all - part);
  }

  /** The score is the identical records' share of all records on both sides. */
  lemma ScoreExactly(show: Json -> string, ignore: set<string>, data1: seq<Record>, data2: seq<Record>)
    ensures var s := Compare(show, ignore, data1, data2);
            IsScore(s.score, s.identical, |data1| + |data2|)
  {
  }

  lemma AgreeingIsIdentical(show: Json -> string, ignore: set<string>, x: map<string, Record>, y: map<string, Record>)
    ensures AgreeingKeys(show, ignore, x, y) == Identical(show, ignore, x, y)
  {
    forall k | k in x.Keys * y.Keys
      ensures SameRecord(show, ignore, x[k], y[k]) <==>
              forall f :: f !in ignore ==> (f in x[k] <==> f in y[k]) && (f in x[k] && f in y[k] ==> show(x[k][f]) == show(y[k][f]))
    {
      AgreesExactly(show, ignore, x[k], y[k]);
    }
  }

  lemma AgreesExactly(show: Json -> string, ignore: set<string>, a: Record, b: Record)
    ensures SameRecord(show, ignore, a, b) <==>
            forall f :: f !in ignore ==> (f in a <==> f in b) && (f in a && f in b ==> show(a[f]) == show(b[f]))
  {
    if SameRecord(show, ignore, a, b) {
      forall f | f !in ignore ensures (f in a <==> f in b) && (f in a && f in b ==> show(a[f]) == show(b[f])) {
        if f in a.Keys + b.Keys {
          assert FieldAgrees(show, a, b, f);
        }
      }
    }
  }

  lemma SwapKeepsIdentical(show: Json -> string, ignore: set<string>, x: map<string, Record>, y: map<string, Record>)
    ensures Identical(show, ignore, x, y) == Identical(show, ignore, y, x)
  {
    forall k | k in x.Keys * y.Keys
      ensures SameRecord(show, ignore, x[k], y[k]) <==> SameRecord(show, ignore, y[k], x[k])
    {
      if SameRecord(show, ignore, x[k], y[k]) {
        SameRecordSymmetric(show, ignore, x[k], y[k]);
      }
      if SameRecord(show, ignore, y[k], x[k]) {
        SameRecordSymmetric(show, ignore, y[k], x[k]);
      }
    }
  }

  lemma SameRecordSymmetric(show: Json -> string, ignore: set<string>, a: Record, b: Record)
    requires SameRecord(show, ignore, a, b)
    ensures SameRecord(show, ignore, b, a)
  {
    forall f | f in b.Keys + a.Keys && f !in ignore ensures FieldAgrees(show, b, a, f) {
      assert f in a.Keys + b.Keys;
      assert FieldAgrees(show, a, b, f);
    }
  }

  /** What a perfect score should mean. */
  ghost predicate SameExport(show: Json -> string, ignore: set<string>, data1: seq<Record>, data2: seq<Record>) {
    var x, y := Index(show, data1), Index(show, data2);
    && UniqueKeys(show, data1) && UniqueKeys(show, data2)
    && x.Keys == y.Keys
    && forall k :: k in x.Keys && k in y.Keys ==> SameRecord(show, ignore, x[k], y[k])
  }

  lemma FullExactly(x: set<string>, y: set<string>, same: set<string>, n1: nat, n2: nat)
    requires same <= x * y && |x| <= n1 && |y| <= n2
    ensures |same| <= n1 && |same| <= n2
    ensures |same| == n1 && |same| == n2 <==> |x| == n1 && |y| == n2 && same == x && x == y
  {
    SharedAndOwn(x, y, same);
    if |same| == n1 && |same| == n2 {
      assert x - y == {} && y - x == {} && x * y - same == {};
    }
  }

  lemma AllSameExactly(show: Json -> string, ignore: set<string>, x: map<string, Record>, y: map<string, Record>)
    requires x.Keys == y.Keys
    ensures Identical(show, ignore, x, y) == x.Keys <==>
            forall k :: k in x.Keys && k in y.Keys ==> SameRecord(show, ignore, x[k], y[k])
  {
    var same := Identical(show, ignore, x, y);
    if same == x.Keys {
      forall k | k in x.Keys && k in y.Keys ensures SameRecord(show, ignore, x[k], y[k]) {
        assert k in same;
      }
    }
  }

  lemma SameExportExactly(show: Json -> string, ignore: set<string>, data1: seq<Record>, data2: seq<Record>)
    ensures var x, y := Index(show, data1), Index(show, data2);
            SameExport(show, ignore, data1, data2) <==> FullMatch(show, ignore, x, y, |data1|, |data2|)
  {
    var x, y := Index(show, data1), Index(show, data2);
    IndexFullExactly(show, data1);
    IndexFullExactly(show, data2);
    if x.Keys == y.Keys {
      AllSameExactly(show, ignore, x, y);
    }
  }

  lemma IndexNoLarger(show: Json -> string, data: seq<Record>)
    ensures |Index(show, data).Keys| <= |data|
  {
    IndexKeys(show, data);
  }

  /** Everything in both indexes is shared and agrees, and no record was lost in indexing. */
  ghost predicate FullMatch(show: Json -> string, ignore: set<string>, x: map<string, Record>, y: map<string, Record>, n1: nat, n2: nat) {
    |x.Keys| == n1 && |y.Keys| == n2 && Identical(show, ignore, x, y) == x.Keys && x.Keys == y.Keys
  }

  lemma FullCountExactly(show: Json -> string, ignore: set<string>, data1: seq<Record>, data2: seq<Record>)
    ensures 2 * |Identical(show, ignore, Index(show, data1), Index(show, data2))| == |data1| + |data2| <==>
            FullMatch(show, ignore, Index(show, data1), Index(show, data2), |data1|, |data2|)
  {
    IndexNoLarger(show, data1);
    IndexNoLarger(show, data2);
    FullExactly(Index(show, data1).Keys, Index(show, data2).Keys,
                Identical(show, ignore, Index(show, data1), Index(show, data2)), |data1|, |data2|);
  }

  lemma IdenticalNoLarger(show: Json -> string, ignore: set<string>, data1: seq<Record>, data2: seq<Record>)
    ensures |Identical(show, ignore, Index(show, data1), Index(show, data2))| <= |data1|
    ensures |Identical(show, ignore, Index(show, data1), Index(show, data2))| <= |data2|
  {
    IndexNoLarger(show, data1);
    IndexNoLarger(show, data2);
    var x, y := Index(show, data1), Index(show, data2);
    SharedAndOwn(x.Keys, y.Keys, Identical(show, ignore, x, y));
  }

  /** The score lies in [0, 1]. */
  lemma ScoreInUnitInterval(show: Json -> string, ignore: set<string>, data1: seq<Record>, data2: seq<Record>)
    ensures 0.0 <= Compare(show, ignore, data1, data2).score <= 1.0
  {
    IdenticalNoLarger(show, ignore, data1, data2);
  }

  /** For nonempty input the score is 1 exactly when the exports are the same. */
  lemma PerfectScoreExactly(show: Json -> string, ignore: set<string>, data1: seq<Record>, data2: seq<Record>)
    requires |data1| + |data2| > 0
    ensures Compare(show, ignore, data1, data2).score == 1.0 <==> SameExport(show, ignore, data1, data2)
  {
    FullCountExactly(show, ignore, data1, data2);
    SameExportExactly(show, ignore, data1, data2);
  }
}

/**
 JSON-shaped Go values (`interface{}` trees of maps, slices and scalars), the field patterns a
 diff engine ignores, and the normal form whose digest the engine compares.
 */
module Json {

  datatype Json =
    | Null
    | Bool(b: bool)
    | Num(n: real)
    | Str(s: string)
    | Arr(items: seq<Json>)
    | Obj(fields: map<string, Json>)

  /** A pattern names one field, or, when it ends in '*', every field with the given prefix. */
  predicate Matches(pattern: string, field: string) {
    || pattern == field
    || (|pattern| > 0 && pattern[|pattern| - 1] == '*' && pattern[..|pattern| - 1] <= field)
  }

  predicate Ignored(patterns: seq<string>, field: string) {
    exists i :: 0 <= i < |patterns| && Matches(patterns[i], field)
  }

  /** The loop of `shouldIgnoreField`. */
  method ShouldIgnoreField(patterns: seq<string>, field: string) returns (r: bool)
    ensures r == Ignored(patterns, field)
  {
    for i := 0 to |patterns|
      invariant forall j :: 0 <= j < i ==> !Matches(patterns[j], field)
    {
      if patterns[i] == field {
        return true;
      }
      if |patterns[i]| > 0 && patterns[i][|patterns[i]| - 1] == '*' {
        var prefix := patterns[i][..|patterns[i]| - 1];
        if prefix <= field {
          return true;
        }
      }
    }
    return false;
  }

  /** A pattern covers a field when it is the field, or a prefix of it followed by a star. */
  lemma IgnoredExactly(patterns: seq<string>, field: string)
    ensures Ignored(patterns, field) <==>
            field in patterns || exists n :: 0 <= n <= |field| && field[..n] + "*" in patterns
  {
    if i :| 0 <= i < |patterns| && Matches(patterns[i], field) {
      if patterns[i] != field {
        var n := |patterns[i]| - 1;
        assert patterns[i] == field[..n] + "*";
      }
    }
    if field in patterns {
      assert Matches(field, field);
    }
    if n :| 0 <= n <= |field| && field[..n] + "*" in patterns {
      assert (field[..n] + "*")[..n] == field[..n];
      assert Matches(field[..n] + "*", field);
    }
  }

  /** `normalizeForHashing`: drops ignored fields at every depth, inside arrays too. */
  function Normalize(patterns: seq<string>, v: Json): Json
    decreases v
  {
    match v
    case Arr(items) => Arr(seq(|items|, i requires 0 <= i < |items| => Normalize(patterns, items[i])))
    case Obj(fields) => Obj(map k | k in fields && !Ignored(patterns, k) :: Normalize(patterns, fields[k]))
    case _ => v
  }

  /** Plain recursive comparison that skips ignored fields: what equal normal forms should mean. */
  ghost predicate Agree(patterns: seq<string>, a: Json, b: Json)
    decreases a
  {
    match (a, b)
    case (Arr(xs), Arr(ys)) =>
      |xs| == |ys| && forall i :: 0 <= i < |xs| ==> Agree(patterns, xs[i], ys[i])
    case (Obj(m), Obj(n)) =>
      && (forall k :: !Ignored(patterns, k) ==> (k in m <==> k in n))
      && (forall k :: !Ignored(patterns, k) && k in m && k in n ==> Agree(patterns, m[k], n[k]))
    case _ => a == b
  }

  lemma {:induction false} NormalFormDecidesAgreement(patterns: seq<string>, a: Json, b: Json)
    ensures Normalize(patterns, a) == Normalize(patterns, b) <==> Agree(patterns, a, b)
    decreases a
  {
    match (a, b)
    case (Arr(xs), Arr(ys)) => NormalArrays(patterns, xs, ys);
    case (Obj(m), Obj(n)) => NormalObjects(patterns, m, n);
    case _ =>
  }

  lemma {:induction false} NormalArrays(patterns: seq<string>, xs: seq<Json>, ys: seq<Json>)
    ensures Normalize(patterns, Arr(xs)) == Normalize(patterns, Arr(ys)) <==> Agree(patterns, Arr(xs), Arr(ys))
    decreases Arr(xs), 0
  {
    var p, q := Normalize(patterns, Arr(xs)).items, Normalize(patterns, Arr(ys)).items;
    if |xs| == |ys| {
      forall i | 0 <= i < |xs|
        ensures p[i] == q[i] <==> Agree(patterns, xs[i], ys[i])
      {
        NormalFormDecidesAgreement(patterns, xs[i], ys[i]);
      }
    }
  }

  lemma {:induction false} NormalObjects(patterns: seq<string>, m: map<string, Json>, n: map<string, Json>)
    ensures Normalize(patterns, Obj(m)) == Normalize(patterns, Obj(n)) <==> Agree(patterns, Obj(m), Obj(n))
    decreases Obj(m), 0
  {
    var p, q := Normalize(patterns, Obj(m)).fields, Normalize(patterns, Obj(n)).fields;
    forall k | !Ignored(patterns, k) && k in m && k in n
      ensures p[k] == q[k] <==> Agree(patterns, m[k], n[k])
    {
      NormalFormDecidesAgreement(patterns, m[k], n[k]);
    }
    if p == q {
      forall k | !Ignored(patterns, k) ensures k in m <==> k in n {
        assert k in m <==> k in p;
        assert k in n <==> k in q;
      }
    }
    if Agree(patterns, Obj(m), Obj(n)) {
      forall k ensures k in p <==> k in q { }
    }
  }

  /** Normalising is idempotent: a normal form is its own normal form. */
  lemma {:induction false} NormalizeIdempotent(patterns: seq<string>, v: Json)
    ensures Normalize(patterns, Normalize(patterns, v)) == Normalize(patterns, v)
    decreases v
  {
    match v
    case Arr(items) =>
      forall i | 0 <= i < |items| { NormalizeIdempotent(patterns, items[i]); }
      assert Normalize(patterns, Normalize(patterns, v)).items == Normalize(patterns, v).items;
    case Obj(fields) =>
      forall k | k in fields { NormalizeIdempotent(patterns, fields[k]); }
      assert Normalize(patterns, Normalize(patterns, v)).fields == Normalize(patterns, v).fields;
    case _ =>
  }
}

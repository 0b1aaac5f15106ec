/**
 Netem configurations, how several are merged into one, and the `tc` arguments that carry them.
 Percentages are whole hundredths, the precision at which they are printed.
 */
module NetemConfig {
  import opened Wrappers
  import opened Decimal

  datatype Config = Config(
    delay: int, jitter: int, loss: int, duplicate: int, corrupt: int, reorder: int, rate: int, limit: int)

  const ZERO := Config(0, 0, 0, 0, 0, 0, 0, 0)

  function Max(a: int, b: int): int {
    if b > a then b else a
  }

  // ---------------------------------------------------------------- merging

  function Join(a: Config, b: Config): Config {
    Config(Max(a.delay, b.delay), Max(a.jitter, b.jitter), Max(a.loss, b.loss), Max(a.duplicate, b.duplicate),
           Max(a.corrupt, b.corrupt), Max(a.reorder, b.reorder), Max(a.rate, b.rate), Max(a.limit, b.limit))
  }

  predicate Leq(a: Config, b: Config) {
    && a.delay <= b.delay && a.jitter <= b.jitter && a.loss <= b.loss && a.duplicate <= b.duplicate
    && a.corrupt <= b.corrupt && a.reorder <= b.reorder && a.rate <= b.rate && a.limit <= b.limit
  }

  /** Fieldwise maximum of a list and zero. */
  function JoinAll(configs: seq<Config>): Config {
    if configs == [] then ZERO else Join(JoinAll(configs[..|configs| - 1]), configs[|configs| - 1])
  }

  /** `mergeConfigs`, whose single-element case returns that element as it is. */
  function Merge(configs: seq<Config>): Config {
    if |configs| == 1 then configs[0] else JoinAll(configs)
  }

  method MergeConfigs(configs: seq<Config>) returns (merged: Config)
    ensures merged == Merge(configs)
  {
    if |configs| == 0 {
      return ZERO;
    }
    if |configs| == 1 {
      return configs[0];
    }
    merged := ZERO;
    for i := 0 to |configs|
      invariant merged == JoinAll(configs[..i])
    {
      var c := configs[i];
      assert configs[..i + 1][..i] == configs[..i];
      if c.delay > merged.delay { merged := merged.(delay := c.delay); }
      if c.jitter > merged.jitter { merged := merged.(jitter := c.jitter); }
      if c.loss > merged.loss { merged := merged.(loss := c.loss); }
      if c.duplicate > merged.duplicate { merged := merged.(duplicate := c.duplicate); }
      if c.corrupt > merged.corrupt { merged := merged.(corrupt := c.corrupt); }
      if c.reorder > merged.reorder { merged := merged.(reorder := c.reorder); }
      if c.rate > merged.rate { merged := merged.(rate := c.rate); }
      if c.limit > merged.limit { merged := merged.(limit := c.limit); }
    }
    assert configs[..|configs|] == configs;
  }

  ghost predicate UpperBound(configs: set<Config>, bound: Config) {
    Leq(ZERO, bound) && forall c :: c in configs ==> Leq(c, bound)
  }

  /** The least upper bound of a set of configurations and zero; there is at most one. */
  ghost predicate IsJoin(configs: set<Config>, r: Config) {
    UpperBound(configs, r) && forall b :: UpperBound(configs, b) ==> Leq(r, b)
  }

  lemma JoinUnique(configs: set<Config>, r: Config, s: Config)
    requires IsJoin(configs, r) && IsJoin(configs, s)
    ensures r == s
  {
    assert Leq(r, s) && Leq(s, r);
  }

  /** The fold computes the least upper bound, whatever the order of the list. */
  lemma {:induction false} JoinAllIsJoin(configs: seq<Config>)
    ensures IsJoin(Elements(configs), JoinAll(configs))
  {
    if configs == [] {
    } else {
      var init, last := configs[..|configs| - 1], configs[|configs| - 1];
      var below, all := Elements(init), Elements(configs);
      JoinAllIsJoin(init);
      assert configs == init + [last];
      assert all == below + {last};
      forall b | UpperBound(all, b) ensures Leq(JoinAll(configs), b) {
        assert UpperBound(below, b) && last in all;
      }
    }
  }

  /** Merging more configurations never lowers a field. */
  lemma JoinMonotone(fewer: seq<Config>, more: seq<Config>)
    requires forall c :: c in fewer ==> c in more
    ensures Leq(JoinAll(fewer), JoinAll(more))
  {
    JoinAllIsJoin(fewer);
    JoinAllIsJoin(more);
    assert UpperBound(Elements(fewer), JoinAll(more));
  }

  // ---------------------------------------------------------------- arguments

  /** The part of a configuration that reaches the command line. */
  function Effective(c: Config): Config {
    Config(Max(0, c.delay), if c.delay > 0 then Max(0, c.jitter) else 0, Max(0, c.loss), Max(0, c.duplicate),
           Max(0, c.corrupt), Max(0, c.reorder), Max(0, c.rate), Max(0, c.limit))
  }

  /** The shortcut for one configuration makes no difference to the arguments. */
  lemma MergeEffective(configs: seq<Config>)
    ensures Effective(Merge(configs)) == Effective(JoinAll(configs))
  {
    if |configs| == 1 {
      assert configs[..0] == [];
    }
  }

  datatype Token = Word(w: string) | Millis(n: nat) | Percent(hundredths: nat) | Mbit(n: nat) | Count(n: nat)

  function Option1(word: string, value: int, t: Token): seq<Token> {
    if value > 0 then [Word(word), t] else []
  }

  function Nat(n: int): nat {
    if n < 0 then 0 else n
  }

  function DelayArgs(c: Config): seq<Token> {
    if c.delay <= 0 then []
    else [Word("delay"), Millis(c.delay)] + (if c.jitter > 0 then [Millis(c.jitter)] else [])
  }

  /** `buildNetemArgs`, before rendering. */
  function Args(c: Config): seq<Token> {
    DelayArgs(c)
    + (Option1("loss", c.loss, Percent(Nat(c.loss)))
    + (Option1("duplicate", c.duplicate, Percent(Nat(c.duplicate)))
    + (Option1("corrupt", c.corrupt, Percent(Nat(c.corrupt))) + LaterArgs(c))))
  }

  function LaterArgs(c: Config): seq<Token> {
    Option1("reorder", c.reorder, Percent(Nat(c.reorder)))
    + (Option1("rate", c.rate, Mbit(Nat(c.rate)))
    + Option1("limit", c.limit, Count(Nat(c.limit))))
  }

  /** Appends a keyword and its value when the field is positive; `rest` is what the caller appends later. */
  method Append(args: seq<Token>, word: string, value: int, t: Token, ghost rest: seq<Token>) returns (r: seq<Token>)
    ensures r + rest == args + (Option1(word, value, t) + rest)
  {
    r := args;
    if value > 0 {
      r := r + [Word(word), t];
    }
  }

  method BuildNetemArgs(args: seq<Token>, c: Config) returns (r: seq<Token>)
    ensures r == args + Args(c)
  {
    r := args;
    if c.delay > 0 {
      r := r + [Word("delay"), Millis(c.delay)];
      if c.jitter > 0 {
        r := r + [Millis(c.jitter)];
      }
    }
    r := BuildPercents(r, c);
    assert r == args + DelayArgs(c) + BuiltPercents(c);
    r := BuildLater(r, c);
    RegroupArgs(args, DelayArgs(c), c);
  }

  /** The loss, duplicate and corrupt options. */
  function BuiltPercents(c: Config): seq<Token> {
    Option1("loss", c.loss, Percent(Nat(c.loss)))
    + (Option1("duplicate", c.duplicate, Percent(Nat(c.duplicate)))
    + Option1("corrupt", c.corrupt, Percent(Nat(c.corrupt))))
  }

  method BuildPercents(args: seq<Token>, c: Config) returns (r: seq<Token>)
    ensures r == args + BuiltPercents(c)
  {
    ghost var corrupt := Option1("corrupt", c.corrupt, Percent(Nat(c.corrupt)));
    r := Append(args, "loss", c.loss, Percent(Nat(c.loss)),
                Option1("duplicate", c.duplicate, Percent(Nat(c.duplicate))) + corrupt);
    r := Append(r, "duplicate", c.duplicate, Percent(Nat(c.duplicate)), corrupt);
    r := Append(r, "corrupt", c.corrupt, Percent(Nat(c.corrupt)), []);
    assert r + [] == r && corrupt + [] == corrupt;
  }

  method BuildLater(args: seq<Token>, c: Config) returns (r: seq<Token>)
    ensures r == args + LaterArgs(c)
  {
    ghost var limit := Option1("limit", c.limit, Count(Nat(c.limit)));
    r := Append(args, "reorder", c.reorder, Percent(Nat(c.reorder)), Option1("rate", c.rate, Mbit(Nat(c.rate))) + limit);
    r := Append(r, "rate", c.rate, Mbit(Nat(c.rate)), limit);
    r := Append(r, "limit", c.limit, Count(Nat(c.limit)), []);
    assert r + [] == r && limit + [] == limit;
  }

  lemma RegroupArgs(args: seq<Token>, delay: seq<Token>, c: Config)
    requires delay == DelayArgs(c)
    ensures args + delay + BuiltPercents(c) + LaterArgs(c) == args + Args(c)
  {
    RegroupSix(args, delay, Option1("loss", c.loss, Percent(Nat(c.loss))),
               Option1("duplicate", c.duplicate, Percent(Nat(c.duplicate))),
               Option1("corrupt", c.corrupt, Percent(Nat(c.corrupt))), LaterArgs(c));
  }

  lemma RegroupSix<T>(a: seq<T>, b: seq<T>, x: seq<T>, y: seq<T>, z: seq<T>, rest: seq<T>)
    ensures a + b + (x + (y + z)) + rest == a + (b + (x + (y + (z + rest))))
  {
    Regroup(y, z, rest);
    Regroup(x, y + z, rest);
    Regroup(b, x + (y + z), rest);
    Regroup(a, b, x + (y + z));
    Regroup(a, b + (x + (y + z)), rest);
  }

  lemma Regroup<T>(a: seq<T>, b: seq<T>, c: seq<T>)
    ensures (a + b) + c == a + (b + c)
  {
  }

  /** A reader of netem options: keyword, value, and for delays an optional second value. */
  function Decode(args: seq<Token>, c: Config): Option<Config> {
    if args == [] then Some(c)
    else if |args| == 1 || !args[0].Word? then None
    else match (args[0].w, args[1])
      case ("delay", Millis(n)) =>
        if |args| > 2 && args[2].Millis? then Decode(args[3..], c.(delay := n, jitter := args[2].n))
        else Decode(args[2..], c.(delay := n))
      case ("loss", Percent(n)) => Decode(args[2..], c.(loss := n))
      case ("duplicate", Percent(n)) => Decode(args[2..], c.(duplicate := n))
      case ("corrupt", Percent(n)) => Decode(args[2..], c.(corrupt := n))
      case ("reorder", Percent(n)) => Decode(args[2..], c.(reorder := n))
      case ("rate", Mbit(n)) => Decode(args[2..], c.(rate := n))
      case ("limit", Count(n)) => Decode(args[2..], c.(limit := n))
      case _ => None
  }

  lemma DecodeOption(word: string, value: int, t: Token, rest: seq<Token>, c: Config, next: Config)
    requires value > 0 ==> Decode([Word(word), t] + rest, c) == Decode(rest, next)
    requires value <= 0 ==> next == c
    ensures Decode(Option1(word, value, t) + rest, c) == Decode(rest, next)
  {
    assert value <= 0 ==> Option1(word, value, t) + rest == rest;
  }

  lemma DecodePair(a: Token, b: Token, rest: seq<Token>)
    ensures ([a, b] + rest)[2..] == rest && ([a, b] + rest)[0] == a && ([a, b] + rest)[1] == b
  {
  }

  lemma DecodeDelay(c: Config, rest: seq<Token>)
    requires rest == [] || rest[0].Word?
    ensures Decode(DelayArgs(c) + rest, ZERO) == Decode(rest, ZERO.(delay := Effective(c).delay, jitter := Effective(c).jitter))
  {
    var args := DelayArgs(c) + rest;
    if c.delay > 0 {
      if c.jitter > 0 {
        assert args[0] == Word("delay") && args[1] == Millis(c.delay) && args[2] == Millis(c.jitter);
        assert args[3..] == rest;
      } else {
        assert args[0] == Word("delay") && args[1] == Millis(c.delay);
        assert args[2..] == rest;
        assert |args| > 2 ==> args[2] == rest[0];
      }
    } else {
      assert args == rest;
    }
  }

  /** The arguments decode to exactly the effective part of the configuration. */
  lemma ArgsDecode(c: Config)
    ensures Decode(Args(c), ZERO) == Some(Effective(c))
  {
    var e := Effective(c);
    var r6 := Option1("limit", c.limit, Count(Nat(c.limit)));
    var r5 := Option1("rate", c.rate, Mbit(Nat(c.rate))) + r6;
    var r4 := Option1("reorder", c.reorder, Percent(Nat(c.reorder))) + r5;
    var r3 := Option1("corrupt", c.corrupt, Percent(Nat(c.corrupt))) + r4;
    var r2 := Option1("duplicate", c.duplicate, Percent(Nat(c.duplicate))) + r3;
    var r1 := Option1("loss", c.loss, Percent(Nat(c.loss))) + r2;
    var c1 := ZERO.(delay := e.delay, jitter := e.jitter);
    var c2 := c1.(loss := e.loss);
    var c3 := c2.(duplicate := e.duplicate);
    var c4 := c3.(corrupt := e.corrupt);
    var c5 := c4.(reorder := e.reorder);
    var c6 := c5.(rate := e.rate);
    DecodeDelay(c, r1);
    DecodePercent("loss", c.loss, r2, c1, c2);
    DecodePercent("duplicate", c.duplicate, r3, c2, c3);
    DecodePercent("corrupt", c.corrupt, r4, c3, c4);
    DecodePercent("reorder", c.reorder, r5, c4, c5);
    DecodeRate(c.rate, r6, c5, c6);
    DecodeLimit(c.limit, c6, e);
  }

  lemma DecodePercent(word: string, value: int, rest: seq<Token>, c: Config, next: Config)
    requires word == "loss" ==> next == c.(loss := Max(0, value)) && c.loss == 0
    requires word == "duplicate" ==> next == c.(duplicate := Max(0, value)) && c.duplicate == 0
    requires word == "corrupt" ==> next == c.(corrupt := Max(0, value)) && c.corrupt == 0
    requires word == "reorder" ==> next == c.(reorder := Max(0, value)) && c.reorder == 0
    requires word in {"loss", "duplicate", "corrupt", "reorder"}
    ensures Decode(Option1(word, value, Percent(Nat(value))) + rest, c) == Decode(rest, next)
  {
    DecodePair(Word(word), Percent(Nat(value)), rest);
    DecodeOption(word, value, Percent(Nat(value)), rest, c, next);
  }

  lemma DecodeRate(value: int, rest: seq<Token>, c: Config, next: Config)
    requires next == c.(rate := Max(0, value)) && c.rate == 0
    ensures Decode(Option1("rate", value, Mbit(Nat(value))) + rest, c) == Decode(rest, next)
  {
    DecodePair(Word("rate"), Mbit(Nat(value)), rest);
    DecodeOption("rate", value, Mbit(Nat(value)), rest, c, next);
  }

  lemma DecodeLimit(value: int, c: Config, next: Config)
    requires next == c.(limit := Max(0, value)) && c.limit == 0
    ensures Decode(Option1("limit", value, Count(Nat(value))), c) == Some(next)
  {
    DecodePair(Word("limit"), Count(Nat(value)), []);
    DecodeOption("limit", value, Count(Nat(value)), [], c, next);
    assert Option1("limit", value, Count(Nat(value))) + [] == Option1("limit", value, Count(Nat(value)));
  }

  /** Two configurations produce the same arguments exactly when their effective parts agree. */
  lemma ArgsDetermineEffective(a: Config, b: Config)
    ensures Args(a) == Args(b) <==> Effective(a) == Effective(b)
  {
    ArgsDecode(a);
    ArgsDecode(b);
    EffectiveArgs(a);
    EffectiveArgs(b);
  }

  lemma EffectiveArgs(c: Config)
    ensures Args(Effective(c)) == Args(c)
  {
    assert DelayArgs(Effective(c)) == DelayArgs(c);
  }

  // ---------------------------------------------------------------- rendering

  /** `%.2f%%` of a number of hundredths. */
  function ShowPercent(h: nat): string {
    Itoa(h / 100) + "." + [DigitChar(h % 100 / 10), DigitChar(h % 10)] + "%"
  }

  /** The command-line text of a token. */
  function Show(t: Token): string {
    match t
    case Word(w) => w
    case Millis(n) => Itoa(n) + "ms"
    case Percent(h) => ShowPercent(h)
    case Mbit(n) => Itoa(n) + "mbit"
    case Count(n) => Itoa(n)
  }

  function NumberOf(s: string): nat {
    if AllDigits(s) then DigitsValue(s) else 0
  }

  /** Words do not start with a digit; numbers are told apart by their last character. */
  function Lex(s: string): Token {
    if s == "" || !IsDigit(s[0]) then Word(s)
    else
      var n, last := |s|, s[|s| - 1];
      if last == 's' && n >= 2 then Millis(NumberOf(s[..n - 2]))
      else if last == '%' && n >= 4 then Percent(100 * NumberOf(s[..n - 4]) + NumberOf(s[n - 3..n - 1]))
      else if last == 't' && n >= 4 then Mbit(NumberOf(s[..n - 4]))
      else Count(NumberOf(s))
  }

  /** Every token the arguments are made of can be read back from its text. */
  lemma LexShow(t: Token)
    requires t.Word? ==> t.w != "" && !IsDigit(t.w[0])
    ensures Lex(Show(t)) == t
  {
    match t
    case Word(_) =>
    case Millis(n) => LexUnit(n, "ms");
    case Mbit(n) => LexUnit(n, "mbit");
    case Count(n) =>
      ReadBack(n);
      assert IsDigit(Itoa(n)[0]) && IsDigit(Itoa(n)[|Itoa(n)| - 1]);
    case Percent(h) => LexPercent(h);
  }

  /** With every field positive, all options stand in their order, each keyword before its value. */
  lemma OptionsRead(c: Config)
    requires c.delay > 0 && c.jitter > 0 && c.loss > 0 && c.duplicate > 0
    requires c.corrupt > 0 && c.reorder > 0 && c.rate > 0 && c.limit > 0
    ensures Args(c) == [Word("delay"), Millis(c.delay), Millis(c.jitter), Word("loss"), Percent(c.loss),
                        Word("duplicate"), Percent(c.duplicate), Word("corrupt"), Percent(c.corrupt),
                        Word("reorder"), Percent(c.reorder), Word("rate"), Mbit(c.rate), Word("limit"), Count(c.limit)]
  {
    assert LaterArgs(c) == [Word("reorder"), Percent(c.reorder), Word("rate"), Mbit(c.rate), Word("limit"), Count(c.limit)];
    assert DelayArgs(c) == [Word("delay"), Millis(c.delay), Millis(c.jitter)];
  }

  /** How the values are written: milliseconds, percent with two decimals, megabits, plain counts. */
  lemma ValuesRead()
    ensures Show(Millis(7)) == "7ms" && Show(Percent(123)) == "1.23%" && Show(Percent(5)) == "0.05%"
    ensures Show(Mbit(8)) == "8mbit" && Show(Count(9)) == "9"
  {
    assert Itoa(1) + "." + "23" + "%" == "1.23%" && Itoa(0) + "." + "05" + "%" == "0.05%";
    assert [DigitChar(2), DigitChar(3)] == "23" && [DigitChar(0), DigitChar(5)] == "05";
  }

  lemma LexUnit(n: nat, unit: string)
    requires unit == "ms" || unit == "mbit"
    ensures Lex(Itoa(n) + unit) == if unit == "ms" then Millis(n) else Mbit(n)
  {
    var s := Itoa(n) + unit;
    UnitFacts(n, unit, s);
    if unit == "ms" {
      assert Lex(s) == Millis(NumberOf(s[..|s| - 2]));
    } else {
      assert Lex(s) == Mbit(NumberOf(s[..|s| - 4]));
    }
  }

  lemma UnitFacts(n: nat, unit: string, s: string)
    requires unit != "" && s == Itoa(n) + unit
    ensures |s| == |Itoa(n)| + |unit| && IsDigit(s[0]) && s[|s| - 1] == unit[|unit| - 1]
    ensures s[..|s| - |unit|] == Itoa(n) && NumberOf(Itoa(n)) == n
  {
    ReadBack(n);
    assert s[0] == Itoa(n)[0];
  }

  lemma TwoDigits(a: nat, b: nat)
    requires a < 10 && b < 10
    ensures DigitsValue([DigitChar(a), DigitChar(b)]) == 10 * a + b
  {
    var s := [DigitChar(a), DigitChar(b)];
    assert s[..1] == [DigitChar(a)] && [DigitChar(a)][..0] == "";
    assert DigitsValue([DigitChar(a)]) == a;
  }

  lemma LexPercent(h: nat)
    ensures Lex(ShowPercent(h)) == Percent(h)
  {
    var a, b := h % 100 / 10, h % 10;
    var whole, frac := Itoa(h / 100), [DigitChar(a), DigitChar(b)];
    var s := ShowPercent(h);
    PercentParts(whole, frac, s);
    ReadBack(h / 100);
    TwoDigits(a, b);
    Hundredths(h);
  }

  lemma PercentParts(whole: string, frac: string, s: string)
    requires whole != "" && |frac| == 2 && s == whole + "." + frac + "%"
    ensures |s| == |whole| + 4 && s[0] == whole[0] && s[|s| - 1] == '%'
    ensures s[..|s| - 4] == whole && s[|s| - 3..|s| - 1] == frac
  {
  }

  lemma Hundredths(h: nat)
    ensures h == 100 * (h / 100) + (10 * (h % 100 / 10) + h % 10)
  {
    var q, r := h / 100, h % 100;
    assert h == 100 * q + r;
    LastDigit(10 * q + r / 10, r % 10);
  }

  lemma LastDigit(tens: nat, digit: nat)
    requires digit < 10
    ensures (10 * tens + digit) % 10 == digit
  {
  }
}

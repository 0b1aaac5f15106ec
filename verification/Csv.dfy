/**
 The CSV formatter, and a reader for section 2 of RFC 4180 (with LF line ends) that it is proved
 against.  Records map field names to values already rendered as text.
 */
module Csv {
  import opened Wrappers

  // ---------------------------------------------------------------- the formatter

  predicate Contains(s: string, c: char) {
    exists i :: 0 <= i < |s| && s[i] == c
  }

  predicate NeedsQuotes(value: string) {
    Contains(value, ',') || Contains(value, '"')
  }

  /** How one character of a quoted value is written. */
  function Doubled(c: char): string {
    if c == '"' then "\"\"" else [c]
  }

  function DoubleQuotes(s: string): string {
    if s == "" then "" else Doubled(s[0]) + DoubleQuotes(s[1..])
  }

  function Escape(value: string): string {
    if NeedsQuotes(value) then "\"" + DoubleQuotes(value) + "\"" else value
  }

  /** `strings.Join(values, ",")` over escaped values, starting at index `i`. */
  function Line(values: seq<string>): string {
    if values == [] then "" else if |values| == 1 then values[0] else values[0] + "," + Line(values[1..])
  }

  function Escaped(values: seq<string>): (r: seq<string>)
    ensures |r| == |values|
  {
    seq(|values|, i requires 0 <= i < |values| => Escape(values[i]))
  }

  function Field(record: map<string, string>, header: string): string {
    if header in record then record[header] else "<nil>"
  }

  function Values(headers: seq<string>, record: map<string, string>): (r: seq<string>)
    ensures |r| == |headers|
  {
    seq(|headers|, i requires 0 <= i < |headers| => Field(record, headers[i]))
  }

  function Rows(headers: seq<string>, data: seq<map<string, string>>): (r: seq<seq<string>>)
    ensures |r| == |data|
  {
    seq(|data|, i requires 0 <= i < |data| => Values(headers, data[i]))
  }

  function Body(rows: seq<seq<string>>): string {
    if rows == [] then "" else Line(Escaped(rows[0])) + "\n" + Body(rows[1..])
  }

  // ---------------------------------------------------------------- sorted headers

  /** Strict lexicographic order. */
  predicate Before(a: string, b: string) {
    b != "" && (a == "" || a[0] < b[0] || (a[0] == b[0] && Before(a[1..], b[1..])))
  }

  /** The strings agree up to `n`, where `a` ends or has the smaller character. */
  ghost predicate PartsAt(a: string, b: string, n: nat) {
    n <= |a| && n < |b| && a[..n] == b[..n] && (n == |a| || a[n] < b[n])
  }

  lemma PrefixHead(a: string, b: string, n: nat)
    requires 0 < n <= |a| && n <= |b| && a[..n] == b[..n]
    ensures a[0] == b[0]
  {
    assert a[..n][0] == b[..n][0];
  }

  lemma PartsAtTail(a: string, b: string, n: nat)
    requires a != "" && b != "" && a[0] == b[0] && n > 0
    ensures PartsAt(a, b, n) <==> PartsAt(a[1..], b[1..], n - 1)
  {
    if n <= |a| && n < |b| {
      assert a[..n] == [a[0]] + a[1..][..n - 1] && b[..n] == [b[0]] + b[1..][..n - 1];
      assert a[..n][1..] == a[1..][..n - 1] && b[..n][1..] == b[1..][..n - 1];
    }
  }

  /** The order is the one of dictionaries: where two strings part, one ends or has the smaller character. */
  lemma {:induction false} BeforeExactly(a: string, b: string)
    ensures Before(a, b) <==> exists n: nat :: PartsAt(a, b, n)
  {
    assert b != "" && (a == "" || a[0] < b[0]) ==> PartsAt(a, b, 0);
    if n: nat :| PartsAt(a, b, n) {
      if n > 0 {
        PrefixHead(a, b, n);
      }
    }
    if a != "" && b != "" && a[0] == b[0] {
      BeforeExactly(a[1..], b[1..]);
      if n: nat :| PartsAt(a[1..], b[1..], n) {
        PartsAtTail(a, b, n + 1);
      }
      if n: nat :| PartsAt(a, b, n) {
        assert n > 0;
        PartsAtTail(a, b, n);
      }
    }
  }

  lemma {:induction false} BeforeOrders(a: string, b: string)
    ensures !(Before(a, b) && Before(b, a))
    ensures Before(a, b) || Before(b, a) || a == b
    ensures a == b ==> !Before(a, b)
  {
    if a == "" || b == "" || a[0] != b[0] {
    } else {
      BeforeOrders(a[1..], b[1..]);
      assert a == [a[0]] + a[1..] && b == [b[0]] + b[1..];
    }
  }

  lemma {:induction false} BeforeTransitive(a: string, b: string, c: string)
    requires Before(a, b) && Before(b, c)
    ensures Before(a, c)
  {
    if a == "" || a[0] < b[0] || b[0] < c[0] {
    } else {
      BeforeTransitive(a[1..], b[1..], c[1..]);
    }
  }

  ghost predicate Ascending(s: seq<string>) {
    forall i, j :: 0 <= i < j < |s| ==> Before(s[i], s[j])
  }

  function Insert(s: seq<string>, k: string): seq<string> {
    if s == [] then [k] else if Before(k, s[0]) then [k] + s else [s[0]] + Insert(s[1..], k)
  }

  lemma {:induction false} InsertAscending(s: seq<string>, k: string)
    requires Ascending(s) && k !in s
    ensures Ascending(Insert(s, k)) && Elements(Insert(s, k)) == Elements(s) + {k}
  {
    if s == [] {
    } else if Before(k, s[0]) {
      forall j | 0 <= j < |s| ensures Before(k, s[j]) {
        if j > 0 {
          BeforeTransitive(k, s[0], s[j]);
        }
      }
    } else {
      var rest := Insert(s[1..], k);
      BeforeOrders(k, s[0]);
      InsertAscending(s[1..], k);
      forall j | 0 <= j < |rest| ensures Before(s[0], rest[j]) {
        assert rest[j] in Elements(s[1..]) + {k};
      }
      assert s == [s[0]] + s[1..];
    }
  }

  /** `sort.Strings` on the keys of a record, in whatever order they are listed. */
  function SortStrings(s: seq<string>): seq<string> {
    if s == [] then [] else Insert(SortStrings(s[..|s| - 1]), s[|s| - 1])
  }

  lemma {:induction false} SortStringsSorts(s: seq<string>)
    requires NoRepeats(s)
    ensures Ascending(SortStrings(s)) && Elements(SortStrings(s)) == Elements(s)
  {
    if s == [] {
    } else {
      var init, last := s[..|s| - 1], s[|s| - 1];
      SortStringsSorts(init);
      assert last !in Elements(init) && s == init + [last];
      InsertAscending(SortStrings(init), last);
    }
  }

  /** The keys in ascending order. */
  ghost function SortedKeys(keys: set<string>): (r: seq<string>)
    ensures Ascending(r) && Elements(r) == keys
  {
    if keys == {} then []
    else
      var k :| k in keys;
      InsertAscending(SortedKeys(keys - {k}), k);
      Insert(SortedKeys(keys - {k}), k)
  }

  lemma HeadIsElement(s: seq<string>)
    requires s != []
    ensures Elements(s) != {}
  {
    assert s[0] in Elements(s);
  }

  lemma {:induction false} AscendingUnique(a: seq<string>, b: seq<string>)
    requires Ascending(a) && Ascending(b) && Elements(a) == Elements(b)
    ensures a == b
  {
    if a == [] {
      if b != [] {
        HeadIsElement(b);
      }
    } else {
      assert a[0] in Elements(b);
      assert b[0] in Elements(a);
      BeforeOrders(a[0], b[0]);
      AscendingTail(a);
      AscendingTail(b);
      AscendingUnique(a[1..], b[1..]);
    }
  }

  lemma AscendingTail(a: seq<string>)
    requires a != [] && Ascending(a)
    ensures Elements(a[1..]) == Elements(a) - {a[0]}
  {
    forall j | 0 < j < |a| ensures a[j] != a[0] {
      BeforeOrders(a[0], a[j]);
    }
    assert a == [a[0]] + a[1..];
  }

  /** Collects the record's keys in any order and sorts them. */
  method CollectHeaders(record: map<string, string>) returns (headers: seq<string>)
    ensures headers == SortedKeys(record.Keys)
  {
    headers := [];
    var rest := record.Keys;
    while rest != {}
      invariant rest <= record.Keys && NoRepeats(headers) && Elements(headers) == record.Keys - rest
      decreases rest
    {
      var key :| key in rest;
      assert key !in Elements(headers);
      assert Elements(headers + [key]) == Elements(headers) + {key};
      headers := headers + [key];
      rest := rest - {key};
    }
    SortStringsSorts(headers);
    headers := SortStrings(headers);
    AscendingUnique(headers, SortedKeys(record.Keys));
  }

  // ---------------------------------------------------------------- formatting

  /** No records give no output. */
  function Format(headers: seq<string>, data: seq<map<string, string>>): string {
    if data == [] then "" else Line(headers) + "\n" + Body(Rows(headers, data))
  }

  method JoinLine(values: seq<string>) returns (s: string)
    ensures s == Line(values)
  {
    if values == [] {
      return "";
    }
    s := values[0];
    LineIsTail(values);
    for i := 1 to |values|
      invariant s + Tail(values[i..]) == Line(values)
    {
      assert values[i..][1..] == values[i + 1..];
      assert s + ("," + values[i] + Tail(values[i + 1..])) == s + "," + values[i] + Tail(values[i + 1..]);
      s := s + "," + values[i];
    }
    assert s + "" == s;
  }

  /** What follows the first value on a line. */
  ghost function Tail(values: seq<string>): string {
    if values == [] then "" else "," + values[0] + Tail(values[1..])
  }

  lemma {:induction false} LineIsTail(values: seq<string>)
    requires values != []
    ensures Line(values) == values[0] + Tail(values[1..])
  {
    if |values| > 1 {
      LineIsTail(values[1..]);
      assert values[0] + ("," + values[1] + Tail(values[1..][1..])) == values[0] + "," + (values[1] + Tail(values[1..][1..]));
    } else {
      assert values[0] + "" == values[0];
    }
  }

  /** The inner loop of `formatAsCSV`: one record's values, escaped, in header order. */
  method RowValues(headers: seq<string>, record: map<string, string>) returns (values: seq<string>)
    ensures values == Escaped(Values(headers, record))
  {
    values := [];
    for j := 0 to |headers|
      invariant values == Escaped(Values(headers, record))[..j]
    {
      var value := if headers[j] in record then record[headers[j]] else "<nil>";
      value := EscapeValue(value);
      EscapedAt(headers, record, j);
      values := values + [value];
    }
  }

  lemma EscapedAt(headers: seq<string>, record: map<string, string>, j: nat)
    requires j < |headers|
    ensures Escaped(Values(headers, record))[..j + 1]
         == Escaped(Values(headers, record))[..j] + [Escape(Field(record, headers[j]))]
  {
  }

  /** Escapes commas and quotes. */
  method EscapeValue(value: string) returns (s: string)
    ensures s == Escape(value)
  {
    s := value;
    if NeedsQuotes(value) {
      s := "\"" + DoubleQuotes(value) + "\"";
    }
  }

  /** `formatAsCSV`. */
  method FormatAsCSV(data: seq<map<string, string>>) returns (s: string)
    ensures s == if data == [] then "" else Format(SortedKeys(data[0].Keys), data)
  {
    if data == [] {
      return "";
    }
    var headers := CollectHeaders(data[0]);
    s := FormatRows(headers, data);
  }

  /** The header line and the rows below it. */
  method FormatRows(headers: seq<string>, data: seq<map<string, string>>) returns (s: string)
    requires data != []
    ensures s == Format(headers, data)
  {
    var line := JoinLine(headers);
    s := line + "\n";
    ghost var head := s;
    ghost var rows := Rows(headers, data);
    for i := 0 to |data|
      invariant s + Body(rows[i..]) == head + Body(rows)
    {
      var values := RowValues(headers, data[i]);
      line := JoinLine(values);
      assert rows[i..][1..] == rows[i + 1..];
      assert s + (line + "\n" + Body(rows[i + 1..])) == s + line + "\n" + Body(rows[i + 1..]);
      s := s + line + "\n";
    }
    assert s + "" == s;
  }

  // ---------------------------------------------------------------- the reader

  datatype Mode =
    | Begin                  // at the start of a field
    | Plain(text: string)    // inside a field without quotes
    | Quoted(text: string)   // inside a quoted field
    | Closing(text: string)  // after a quote inside a quoted field

  datatype Reader = Reader(rows: seq<seq<string>>, row: seq<string>, mode: Mode)

  function EndField(r: Reader, text: string): Reader {
    r.(row := r.row + [text], mode := Begin)
  }

  function EndRow(r: Reader, text: string): Reader {
    Reader(r.rows + [r.row + [text]], [], Begin)
  }

  /** One character; `None` where the grammar has no such text. */
  function ReadChar(r: Reader, c: char): Option<Reader> {
    match r.mode
    case Begin =>
      if c == '"' then Some(r.(mode := Quoted("")))
      else if c == ',' then Some(EndField(r, ""))
      else if c == '\n' then Some(EndRow(r, ""))
      else if c == '\r' then None
      else Some(r.(mode := Plain([c])))
    case Plain(text) =>
      if c == ',' then Some(EndField(r, text))
      else if c == '\n' then Some(EndRow(r, text))
      else if c == '"' || c == '\r' then None
      else Some(r.(mode := Plain(text + [c])))
    case Quoted(text) =>
      if c == '"' then Some(r.(mode := Closing(text))) else Some(r.(mode := Quoted(text + [c])))
    case Closing(text) =>
      if c == '"' then Some(r.(mode := Quoted(text + "\"")))
      else if c == ',' then Some(EndField(r, text))
      else if c == '\n' then Some(EndRow(r, text))
      else None
  }

  function Read(r: Reader, s: string): Option<Reader>
    decreases |s|
  {
    if s == "" then Some(r)
    else match ReadChar(r, s[0])
      case Some(next) => Read(next, s[1..])
      case None => None
  }

  const EMPTY := Reader([], [], Begin)

  /** The records of a whole text; a last record may lack its line end. */
  function ReadAll(s: string): Option<seq<seq<string>>> {
    match Read(EMPTY, s)
    case None => None
    case Some(r) =>
      match r.mode
      case Begin => if r.row == [] then Some(r.rows) else Some(r.rows + [r.row + [""]])
      case Plain(text) => Some(r.rows + [r.row + [text]])
      case Closing(text) => Some(r.rows + [r.row + [text]])
      case Quoted(_) => None
  }

  lemma {:induction false} ReadAppend(r: Reader, s: string, t: string)
    ensures Read(r, s + t) == match Read(r, s) case Some(m) => Read(m, t) case None => None
    decreases |s|
  {
    if s == "" {
      assert s + t == t;
    } else {
      assert (s + t)[1..] == s[1..] + t;
      match ReadChar(r, s[0])
      case Some(next) => ReadAppend(next, s[1..], t);
      case None =>
    }
  }

  // ---------------------------------------------------------------- one field

  predicate NoSpecials(s: string) {
    !Contains(s, ',') && !Contains(s, '"') && !Contains(s, '\n') && !Contains(s, '\r')
  }

  /** Values the formatter writes unambiguously: quoted ones, and those without a line break. */
  predicate Safe(value: string) {
    NeedsQuotes(value) || (!Contains(value, '\n') && !Contains(value, '\r'))
  }

  /** The field read so far, when it may end here. */
  function Pending(mode: Mode): string {
    match mode
    case Begin => ""
    case Plain(text) => text
    case Closing(text) => text
    case Quoted(text) => text
  }

  lemma {:induction false} ReadPlain(r: Reader, text: string, s: string)
    requires NoSpecials(s) && r.mode == (if text == "" then Begin else Plain(text))
    ensures Read(r, s) == Some(r.(mode := if text + s == "" then Begin else Plain(text + s)))
    decreases |s|
  {
    if s == "" {
      assert text + s == text;
    } else {
      assert text == "" ==> text + [s[0]] == [s[0]];
      assert s[0] != ',' && s[0] != '"' && s[0] != '\n' && s[0] != '\r';
      assert ReadChar(r, s[0]) == Some(r.(mode := Plain(text + [s[0]])));
      ReadPlain(r.(mode := Plain(text + [s[0]])), text + [s[0]], s[1..]);
      assert text + [s[0]] + s[1..] == text + s;
    }
  }

  lemma ReadDoubled(r: Reader, text: string, c: char, rest: string)
    requires r.mode == Quoted(text)
    ensures Read(r, Doubled(c) + rest) == Read(r.(mode := Quoted(text + [c])), rest)
  {
    var s := Doubled(c) + rest;
    if c == '"' {
      assert s[1..] == "\"" + rest;
      assert s[1..][1..] == rest;
    } else {
      assert s[1..] == rest;
    }
  }

  lemma {:induction false} ReadQuoted(r: Reader, text: string, s: string)
    requires r.mode == Quoted(text)
    ensures Read(r, DoubleQuotes(s) + "\"") == Some(r.(mode := Closing(text + s)))
    decreases |s|
  {
    if s == "" {
      assert DoubleQuotes(s) + "\"" == "\"" && "\""[1..] == "" && text + s == text;
    } else {
      var rest := DoubleQuotes(s[1..]) + "\"";
      assert DoubleQuotes(s) + "\"" == Doubled(s[0]) + rest;
      ReadDoubled(r, text, s[0], rest);
      ReadQuoted(r.(mode := Quoted(text + [s[0]])), text + [s[0]], s[1..]);
      assert text + [s[0]] + s[1..] == text + s;
    }
  }

  /** A safe value, as written, is read back whole and leaves the reader where the field may end. */
  lemma ReadField(r: Reader, value: string) returns (mode: Mode)
    requires r.mode == Begin && Safe(value)
    ensures Read(r, Escape(value)) == Some(r.(mode := mode))
    ensures !mode.Quoted? && Pending(mode) == value
  {
    if NeedsQuotes(value) {
      var quoted := DoubleQuotes(value) + "\"";
      assert Escape(value) == "\"" + quoted && ("\"" + quoted)[1..] == quoted;
      ReadQuoted(r.(mode := Quoted("")), "", value);
      assert "" + value == value;
      mode := Closing(value);
    } else {
      ReadPlain(r, "", value);
      assert "" + value == value;
      mode := if value == "" then Begin else Plain(value);
    }
  }

  lemma ReadEnd(r: Reader, c: char)
    requires !r.mode.Quoted? && (c == ',' || c == '\n')
    ensures Read(r, [c]) == Some(if c == ',' then EndField(r, Pending(r.mode)) else EndRow(r, Pending(r.mode)))
  {
    assert [c][1..] == "";
  }

  // ---------------------------------------------------------------- lines and texts

  ghost predicate AllSafe(values: seq<string>) {
    forall i :: 0 <= i < |values| ==> Safe(values[i])
  }

  lemma ReadFieldAndEnd(r: Reader, value: string, c: char)
    requires r.mode == Begin && Safe(value) && (c == ',' || c == '\n')
    ensures Read(r, Escape(value) + [c]) == Some(if c == ',' then EndField(r, value) else EndRow(r, value))
  {
    var mode := ReadField(r, value);
    ReadAppend(r, Escape(value), [c]);
    ReadEnd(r.(mode := mode), c);
  }

  lemma {:induction false} ReadLine(r: Reader, values: seq<string>)
    requires r.mode == Begin && values != [] && AllSafe(values)
    ensures Read(r, Line(Escaped(values)) + "\n") == Some(Reader(r.rows + [r.row + values], [], Begin))
    decreases |values|
  {
    var e := Escaped(values);
    if |values| == 1 {
      ReadFieldAndEnd(r, values[0], '\n');
      assert r.row + values == r.row + [values[0]];
    } else {
      var rest := values[1..];
      assert e[1..] == Escaped(rest);
      assert Line(e) + "\n" == (Escape(values[0]) + ",") + (Line(e[1..]) + "\n");
      ReadFieldAndEnd(r, values[0], ',');
      ReadAppend(r, Escape(values[0]) + ",", Line(e[1..]) + "\n");
      ReadLine(EndField(r, values[0]), rest);
      assert r.row + [values[0]] + rest == r.row + values;
    }
  }

  ghost predicate AllRowsSafe(rows: seq<seq<string>>) {
    forall i :: 0 <= i < |rows| ==> AllSafe(rows[i])
  }

  ghost predicate NoEmptyRow(rows: seq<seq<string>>) {
    forall i :: 0 <= i < |rows| ==> rows[i] != []
  }

  lemma {:induction false} ReadBody(before: seq<seq<string>>, rows: seq<seq<string>>)
    requires AllRowsSafe(rows) && NoEmptyRow(rows)
    ensures Read(Reader(before, [], Begin), Body(rows)) == Some(Reader(before + rows, [], Begin))
    decreases |rows|
  {
    var r := Reader(before, [], Begin);
    if rows == [] {
      assert before + rows == before;
    } else {
      ReadLine(r, rows[0]);
      assert [] + rows[0] == rows[0];
      ReadAppend(r, Line(Escaped(rows[0])) + "\n", Body(rows[1..]));
      ReadBody(before + [rows[0]], rows[1..]);
      assert before + [rows[0]] + rows[1..] == before + rows;
    }
  }

  /** Header names the formatter can write as they are: it never quotes them. */
  ghost predicate PlainHeaders(headers: seq<string>) {
    forall i :: 0 <= i < |headers| ==> NoSpecials(headers[i])
  }

  lemma ReadHeader(headers: seq<string>)
    requires headers != [] && PlainHeaders(headers)
    ensures Read(EMPTY, Line(headers) + "\n") == Some(Reader([headers], [], Begin))
  {
    forall i | 0 <= i < |headers| ensures Escape(headers[i]) == headers[i] && Safe(headers[i]) {
      assert NoSpecials(headers[i]);
    }
    assert Escaped(headers) == headers;
    ReadLine(EMPTY, headers);
    assert [] + headers == headers && [] + [headers] == [headers];
  }

  // ---------------------------------------------------------------- what the reader spends on quotes

  function Quotes(s: string): nat {
    if s == "" then 0 else (if s[0] == '"' then 1 else 0) + Quotes(s[1..])
  }

  lemma {:induction false} QuotesJoin(s: string, t: string)
    ensures Quotes(s + t) == Quotes(s) + Quotes(t)
  {
    if s == "" {
      assert s + t == t;
    } else {
      assert (s + t)[1..] == s[1..] + t;
      QuotesJoin(s[1..], t);
    }
  }

  lemma QuotesPush(s: string, c: char)
    ensures Quotes(s + [c]) == Quotes(s) + (if c == '"' then 1 else 0)
  {
    QuotesJoin(s, [c]);
    assert Quotes([c][1..]) == 0;
  }

  lemma {:induction false} NoQuotes(s: string)
    requires !Contains(s, '"')
    ensures Quotes(s) == 0
  {
    if s == "" {
    } else {
      assert s[0] != '"' && !Contains(s[1..], '"') by {
        assert forall i :: 0 <= i < |s[1..]| ==> s[1..][i] == s[i + 1];
      }
      NoQuotes(s[1..]);
    }
  }

  /** The least number of quotes in any text that a reader takes for the field `value`. */
  function Cost(value: string): nat {
    if NoSpecials(value) then 0 else 2 * Quotes(value) + 2
  }

  function RowCost(row: seq<string>): nat {
    if row == [] then 0 else RowCost(row[..|row| - 1]) + Cost(row[|row| - 1])
  }

  function RowsCost(rows: seq<seq<string>>): nat {
    if rows == [] then 0 else RowsCost(rows[..|rows| - 1]) + RowCost(rows[|rows| - 1])
  }

  function ModeCost(mode: Mode): nat {
    match mode
    case Begin => 0
    case Plain(_) => 0
    case Quoted(text) => 2 * Quotes(text) + 1
    case Closing(text) => 2 * Quotes(text) + 2
  }

  /** Quotes that must have been read to get here. */
  function Spent(r: Reader): nat {
    RowsCost(r.rows) + RowCost(r.row) + ModeCost(r.mode)
  }

  /** A field without quotes holds nothing that would need them, and no row is empty. */
  ghost predicate Tidy(r: Reader) {
    NoEmptyRow(r.rows) && (r.mode.Plain? ==> NoSpecials(r.mode.text))
  }

  lemma RowCostPush(row: seq<string>, text: string)
    ensures RowCost(row + [text]) == RowCost(row) + Cost(text)
  {
    assert (row + [text])[..|row|] == row;
  }

  lemma RowsCostPush(rows: seq<seq<string>>, row: seq<string>)
    ensures RowsCost(rows + [row]) == RowsCost(rows) + RowCost(row)
  {
    assert (rows + [row])[..|rows|] == rows;
  }

  /** Ending a field costs nothing beyond what was read of it. */
  lemma PendingCost(r: Reader)
    requires Tidy(r) && !r.mode.Quoted?
    ensures Cost(Pending(r.mode)) <= ModeCost(r.mode)
  {
  }

  lemma EndSpends(r: Reader)
    requires Tidy(r) && !r.mode.Quoted?
    ensures Tidy(EndField(r, Pending(r.mode))) && Spent(EndField(r, Pending(r.mode))) <= Spent(r)
    ensures Tidy(EndRow(r, Pending(r.mode))) && Spent(EndRow(r, Pending(r.mode))) <= Spent(r)
  {
    PendingCost(r);
    RowCostPush(r.row, Pending(r.mode));
    RowsCostPush(r.rows, r.row + [Pending(r.mode)]);
  }

  lemma CharSpends(r: Reader, c: char)
    requires Tidy(r) && ReadChar(r, c).Some?
    ensures Tidy(ReadChar(r, c).value)
    ensures Spent(ReadChar(r, c).value) <= Spent(r) + (if c == '"' then 1 else 0)
  {
    if !r.mode.Quoted? && (c == ',' || c == '\n') {
      EndSpends(r);
    } else if r.mode.Quoted? {
      QuotesPush(r.mode.text, c);
    } else if r.mode.Closing? {
      QuotesPush(r.mode.text, c);
    }
  }

  lemma {:induction false} ReadSpends(r: Reader, s: string)
    requires Tidy(r) && Read(r, s).Some?
    ensures Tidy(Read(r, s).value) && Spent(Read(r, s).value) <= Spent(r) + Quotes(s)
    decreases |s|
  {
    if s == "" {
    } else {
      CharSpends(r, s[0]);
      ReadSpends(ReadChar(r, s[0]).value, s[1..]);
    }
  }

  /** No text yields rows that cost more quotes than it has, or an empty row. */
  lemma ReadAllSpends(s: string)
    requires ReadAll(s).Some?
    ensures NoEmptyRow(ReadAll(s).value) && RowsCost(ReadAll(s).value) <= Quotes(s)
  {
    ReadSpends(EMPTY, s);
    var r := Read(EMPTY, s).value;
    EndSpends(r);
  }

  // ---------------------------------------------------------------- what the formatter writes

  lemma {:induction false} QuotesDoubled(s: string)
    ensures Quotes(DoubleQuotes(s)) == 2 * Quotes(s)
  {
    if s == "" {
    } else {
      QuotesDoubled(s[1..]);
      QuotesJoin(Doubled(s[0]), DoubleQuotes(s[1..]));
      assert "\"\""[1..] == "\"" && "\""[1..] == "" && [s[0]][1..] == "";
      assert Quotes("\"") == 1;
    }
  }

  /** The formatter never writes more quotes than a value costs, and as many exactly for safe ones. */
  lemma EscapeCost(value: string)
    ensures Quotes(Escape(value)) <= Cost(value)
    ensures Quotes(Escape(value)) == Cost(value) <==> Safe(value)
  {
    if NeedsQuotes(value) {
      QuotesDoubled(value);
      QuotesJoin("\"" + DoubleQuotes(value), "\"");
      QuotesJoin("\"", DoubleQuotes(value));
      assert "\""[1..] == "";
      assert Quotes("\"") == 1;
    } else {
      NoQuotes(value);
    }
  }

  lemma HeaderCost(header: string)
    ensures Quotes(header) <= Cost(header)
    ensures Quotes(header) == Cost(header) <==> NoSpecials(header)
  {
    if NoSpecials(header) {
      NoQuotes(header);
    }
  }

  lemma {:induction false} RowCostHead(row: seq<string>)
    requires row != []
    ensures RowCost(row) == Cost(row[0]) + RowCost(row[1..])
  {
    if |row| == 1 {
      assert row[..0] == [] && row[1..] == [];
    } else {
      RowCostHead(row[..|row| - 1]);
      assert row[..|row| - 1][1..] == row[1..][..|row| - 2];
    }
  }

  lemma {:induction false} RowsCostHead(rows: seq<seq<string>>)
    requires rows != []
    ensures RowsCost(rows) == RowCost(rows[0]) + RowsCost(rows[1..])
  {
    if |rows| == 1 {
      assert rows[..0] == [] && rows[1..] == [];
    } else {
      RowsCostHead(rows[..|rows| - 1]);
      assert rows[..|rows| - 1][1..] == rows[1..][..|rows| - 2];
    }
  }

  /** `text` is how a value is written, never with more quotes than the value costs. */
  ghost predicate Affordable(texts: seq<string>, values: seq<string>) {
    |texts| == |values| && forall i :: 0 <= i < |texts| ==> Quotes(texts[i]) <= Cost(values[i])
  }

  ghost predicate FullyPaid(texts: seq<string>, values: seq<string>) {
    |texts| == |values| && forall i :: 0 <= i < |texts| ==> Quotes(texts[i]) == Cost(values[i])
  }

  lemma FullyPaidHead(texts: seq<string>, values: seq<string>)
    requires |texts| == |values| >= 1
    ensures FullyPaid(texts, values) <==> Quotes(texts[0]) == Cost(values[0]) && FullyPaid(texts[1..], values[1..])
  {
    if Quotes(texts[0]) == Cost(values[0]) && FullyPaid(texts[1..], values[1..]) {
      forall i | 0 <= i < |texts| ensures Quotes(texts[i]) == Cost(values[i]) {
        if i > 0 {
          assert texts[1..][i - 1] == texts[i];
        }
      }
    }
  }

  lemma {:induction false} LineQuotes(texts: seq<string>, values: seq<string>)
    requires Affordable(texts, values)
    ensures Quotes(Line(texts)) <= RowCost(values)
    ensures Quotes(Line(texts)) == RowCost(values) <==> FullyPaid(texts, values)
  {
    if texts == [] {
    } else {
      RowCostHead(values);
      FullyPaidHead(texts, values);
      LineQuotes(texts[1..], values[1..]);
      LineHead(texts);
    }
  }

  lemma LineHead(texts: seq<string>)
    requires texts != []
    ensures Quotes(Line(texts)) == Quotes(texts[0]) + Quotes(Line(texts[1..]))
  {
    if |texts| > 1 {
      QuotesJoin(texts[0] + ",", Line(texts[1..]));
      QuotesPush(texts[0], ',');
    }
  }

  lemma RowQuotes(values: seq<string>)
    ensures Quotes(Line(Escaped(values))) <= RowCost(values)
    ensures Quotes(Line(Escaped(values))) == RowCost(values) <==> AllSafe(values)
  {
    forall i | 0 <= i < |values|
      ensures Quotes(Escaped(values)[i]) <= Cost(values[i])
      ensures Quotes(Escaped(values)[i]) == Cost(values[i]) <==> Safe(values[i])
    {
      EscapeCost(values[i]);
    }
    LineQuotes(Escaped(values), values);
  }

  lemma HeaderQuotes(headers: seq<string>)
    ensures Quotes(Line(headers)) <= RowCost(headers)
    ensures Quotes(Line(headers)) == RowCost(headers) <==> PlainHeaders(headers)
  {
    forall i | 0 <= i < |headers|
      ensures Quotes(headers[i]) <= Cost(headers[i])
      ensures Quotes(headers[i]) == Cost(headers[i]) <==> NoSpecials(headers[i])
    {
      HeaderCost(headers[i]);
    }
    LineQuotes(headers, headers);
  }

  lemma {:induction false} BodyQuotes(rows: seq<seq<string>>)
    ensures Quotes(Body(rows)) <= RowsCost(rows)
    ensures Quotes(Body(rows)) == RowsCost(rows) <==> AllRowsSafe(rows)
  {
    if rows == [] {
    } else {
      RowsCostHead(rows);
      RowQuotes(rows[0]);
      BodyQuotes(rows[1..]);
      QuotesJoin(Line(Escaped(rows[0])) + "\n", Body(rows[1..]));
      QuotesPush(Line(Escaped(rows[0])), '\n');
      RowsSafeHead(rows);
    }
  }

  lemma RowsSafeHead(rows: seq<seq<string>>)
    requires rows != []
    ensures AllRowsSafe(rows) <==> AllSafe(rows[0]) && AllRowsSafe(rows[1..])
  {
    if AllSafe(rows[0]) && AllRowsSafe(rows[1..]) {
      forall i | 0 <= i < |rows| ensures AllSafe(rows[i]) {
        if i > 0 {
          assert rows[1..][i - 1] == rows[i];
        }
      }
    }
  }

  lemma TextQuotes(headers: seq<string>, rows: seq<seq<string>>)
    ensures Quotes(Line(headers) + "\n" + Body(rows)) == RowsCost([headers] + rows) ==>
              PlainHeaders(headers) && AllRowsSafe(rows)
    ensures Quotes(Line(headers) + "\n" + Body(rows)) <= RowsCost([headers] + rows)
  {
    RowsCostHead([headers] + rows);
    assert ([headers] + rows)[1..] == rows;
    HeaderQuotes(headers);
    BodyQuotes(rows);
    QuotesJoin(Line(headers) + "\n", Body(rows));
    QuotesPush(Line(headers), '\n');
  }

  lemma WrittenAndRead(headers: seq<string>, data: seq<map<string, string>>)
    ensures ReadAll(Format(headers, data)) == Some([headers] + Rows(headers, data)) <==>
            data != [] && headers != [] && PlainHeaders(headers) && AllRowsSafe(Rows(headers, data))
  {
    var rows := Rows(headers, data);
    if data != [] && headers != [] && PlainHeaders(headers) && AllRowsSafe(rows) {
      ReadHeader(headers);
      ReadAppend(EMPTY, Line(headers) + "\n", Body(rows));
      ReadBody([headers], rows);
    }
    if ReadAll(Format(headers, data)) == Some([headers] + rows) {
      ReadAllSpends(Format(headers, data));
      assert ([headers] + rows)[0] == headers;
      TextQuotes(headers, rows);
    }
  }

  /** `row` holds the record's value under every header, and "<nil>" where it has none. */
  ghost predicate HoldsRecord(row: seq<string>, headers: seq<string>, record: map<string, string>) {
    && |row| == |headers|
    && (forall j :: 0 <= j < |headers| && headers[j] in record ==> row[j] == record[headers[j]])
    && (forall j :: 0 <= j < |headers| && headers[j] !in record ==> row[j] == "<nil>")
  }

  /** The rows read are the headers and then every record's values. */
  ghost predicate ReadsBack(read: Option<seq<seq<string>>>, headers: seq<string>, data: seq<map<string, string>>) {
    && read.Some? && |read.value| == |data| + 1 && read.value[0] == headers
    && forall i :: 0 <= i < |data| ==> HoldsRecord(read.value[i + 1], headers, data[i])
  }

  /** Every value that is written is one the formatter writes unambiguously. */
  ghost predicate AllValuesSafe(headers: seq<string>, data: seq<map<string, string>>) {
    forall i, j :: 0 <= i < |data| && 0 <= j < |headers| && headers[j] in data[i] ==> Safe(data[i][headers[j]])
  }

  /** A row that holds the record is the row that was written. */
  lemma HoldsExactly(row: seq<string>, headers: seq<string>, record: map<string, string>)
    ensures HoldsRecord(row, headers, record) <==> row == Values(headers, record)
  {
  }

  lemma ReadsBackRows(read: seq<seq<string>>, headers: seq<string>, data: seq<map<string, string>>)
    ensures ReadsBack(Some(read), headers, data) <==> read == [headers] + Rows(headers, data)
  {
    var rows := Rows(headers, data);
    forall i | 0 <= i < |data| && |read| == |data| + 1
      ensures HoldsRecord(read[i + 1], headers, data[i]) <==> read[i + 1] == rows[i]
    {
      HoldsExactly(read[i + 1], headers, data[i]);
    }
    if ReadsBack(Some(read), headers, data) {
      assert read == [headers] + rows;
    }
    if read == [headers] + rows {
      forall i | 0 <= i < |data| ensures HoldsRecord(read[i + 1], headers, data[i]) {
        assert read[i + 1] == rows[i];
      }
    }
  }

  lemma NilIsSafe()
    ensures Safe("<nil>")
  {
  }

  lemma RowSafeExactly(headers: seq<string>, record: map<string, string>)
    ensures AllSafe(Values(headers, record)) <==>
            forall j :: 0 <= j < |headers| && headers[j] in record ==> Safe(record[headers[j]])
  {
    NilIsSafe();
    forall j | 0 <= j < |headers| && headers[j] in record
      ensures Values(headers, record)[j] == record[headers[j]] { }
  }

  lemma ValuesSafeExactly(headers: seq<string>, data: seq<map<string, string>>)
    ensures AllRowsSafe(Rows(headers, data)) <==> AllValuesSafe(headers, data)
  {
    forall i | 0 <= i < |data|
      ensures AllSafe(Rows(headers, data)[i]) <==>
              forall j :: 0 <= j < |headers| && headers[j] in data[i] ==> Safe(data[i][headers[j]])
    {
      RowSafeExactly(headers, data[i]);
    }
  }

  /**
   Round trip: reading the formatted text returns the header row and, row by row, the value of every
   record under every header, if and only if there is a record and a header, no header contains a
   comma, quote or line break, and no value contains a line break without also containing a comma
   or a quote.
   */
  lemma RoundTripExactly(headers: seq<string>, data: seq<map<string, string>>)
    ensures ReadsBack(ReadAll(Format(headers, data)), headers, data) <==>
            data != [] && headers != [] && PlainHeaders(headers) && AllValuesSafe(headers, data)
  {
    WrittenAndRead(headers, data);
    ValuesSafeExactly(headers, data);
    if ReadAll(Format(headers, data)).Some? {
      ReadsBackRows(ReadAll(Format(headers, data)).value, headers, data);
    }
  }
}

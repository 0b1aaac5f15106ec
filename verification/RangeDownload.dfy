/**
 Byte-range requests for stored chunks, and a client that resumes an interrupted download by
 asking for "bytes=got-" until it has the whole chunk.
 */
module RangeDownload {
  import opened Wrappers
  import opened Decimal
  import opened Export

  const MAX_INT64: nat := 0x7FFF_FFFF_FFFF_FFFF

  // ---------------------------------------------------------------- the header

  /** `strings.Split` with a one-character separator. */
  function Split(s: string, sep: char): (r: seq<string>)
    ensures |r| >= 1
  {
    if s == "" then [""]
    else
      var rest := Split(s[1..], sep);
      if s[0] == sep then [""] + rest else [[s[0]] + rest[0]] + rest[1..]
  }

  predicate Free(s: string, c: char) {
    forall i :: 0 <= i < |s| ==> s[i] != c
  }

  lemma {:induction false} SplitNone(s: string, sep: char)
    requires Free(s, sep)
    ensures Split(s, sep) == [s]
  {
    if s == "" {
    } else {
      SplitNone(s[1..], sep);
      assert s == [s[0]] + s[1..];
    }
  }

  lemma {:induction false} SplitOnce(a: string, b: string, sep: char)
    requires Free(a, sep) && Free(b, sep)
    ensures Split(a + [sep] + b, sep) == [a, b]
  {
    var s := a + [sep] + b;
    if a == "" {
      assert s[1..] == b;
      SplitNone(b, sep);
    } else {
      assert s[1..] == a[1..] + [sep] + b;
      SplitOnce(a[1..], b, sep);
      assert a == [a[0]] + a[1..];
    }
  }

  /** `strconv.ParseInt(s, 10, 64)`; `None` is a syntax or range error. */
  function ParseInt(s: string): Option<int> {
    var negative := |s| > 0 && s[0] == '-';
    var digits := if |s| > 0 && (s[0] == '-' || s[0] == '+') then s[1..] else s;
    if digits == "" || !AllDigits(digits) then None
    else
      var n: int := DigitsValue(digits);
      if negative then if n <= MAX_INT64 + 1 then Some(-n) else None
      else if n <= MAX_INT64 then Some(n) else None
  }

  lemma ParsePrinted(n: nat)
    ensures ParseInt(Itoa(n)) == if n <= MAX_INT64 then Some(n) else None
  {
    ReadBack(n);
    assert IsDigit(Itoa(n)[0]);
  }

  /** A sign is accepted, and counts. */
  lemma SignsCount(n: nat)
    ensures ParseInt("+" + Itoa(n)) == ParseInt(Itoa(n))
    ensures ParseInt("-" + Itoa(n)) == if n <= MAX_INT64 + 1 then Some(0 - n as int) else None
  {
    ReadBack(n);
    assert ("+" + Itoa(n))[1..] == Itoa(n) && ("-" + Itoa(n))[1..] == Itoa(n);
    assert IsDigit(Itoa(n)[0]);
  }

  /** Only digits, after a sign if there is one, are accepted, and only if their number fits in 64 bits. */
  lemma ParseIntExactly(s: string, n: nat)
    ensures ParseInt(Itoa(n)).Some? <==> n <= 9_223_372_036_854_775_807
    ensures ParseInt(s).Some? ==> s != "" && AllDigits(s[1..]) && (IsDigit(s[0]) || (|s| > 1 && (s[0] == '+' || s[0] == '-')))
  {
    ParsePrinted(n);
  }

  // ---------------------------------------------------------------- the handler

  datatype Response =
    | NotSatisfiable
    | PartialContent(first: int, last: int, total: int, contentLength: int, body: string)

  function FirstPos(part: string): (r: int)
    ensures r >= 0
  {
    match ParseInt(part)
    case Some(n) => if n < 0 then 0 else n
    case None => 0
  }

  function LastPos(len: nat, part: string): (r: int)
    ensures r < len
  {
    match ParseInt(part)
    case Some(n) => if n < len then n else len - 1
    case None => len - 1
  }

  /** The response once both positions have been read. */
  function RespondBetween(data: string, first: nat, last: int): Response
    requires last < |data|
  {
    if first > last then NotSatisfiable
    else PartialContent(first, last, |data|, last - first + 1, data[first..last + 1])
  }

  /** The last position to serve. */
  function ClampLast(len: nat, last: Option<nat>): (r: int)
    ensures r < len
  {
    if last.Some? && last.value < len then last.value else len - 1
  }

  function Respond(data: string, parts: seq<string>): Response {
    if |parts| != 2 then NotSatisfiable
    else RespondBetween(data, FirstPos(parts[0]), LastPos(|data|, parts[1]))
  }

  /** The answer to a range header, whatever it contains. */
  function Serve(data: string, header: string): Response {
    Respond(data, Split(TrimPrefix(header, "bytes="), '-'))
  }

  /** `handleRangeRequest`. */
  method HandleRangeRequest(data: string, header: string) returns (r: Response)
    ensures r == Serve(data, header)
  {
    var ranges := TrimPrefix(header, "bytes=");
    var parts := Split(ranges, '-');
    if |parts| != 2 {
      return NotSatisfiable;
    }
    var start := 0;
    var parsed := ParseInt(parts[0]);
    if parsed.Some? && parsed.value >= 0 {
      start := parsed.value;
    }
    var end := |data| - 1;
    if parts[1] != "" {
      var e := ParseInt(parts[1]);
      if e.Some? && e.value < |data| {
        end := e.value;
      }
    }
    if start > end || start >= |data| {
      return NotSatisfiable;
    }
    r := PartialContent(start, end, |data|, end - start + 1, data[start..end + 1]);
  }

  /**
   For every header: a served range is nonempty, inside the data, and its announced positions and
   length are those of the bytes sent; nothing is served from empty data.
   */
  lemma ServedRangeIsExact(data: string, header: string)
    ensures var r := Serve(data, header);
            r.PartialContent? ==>
              && 0 <= r.first <= r.last < |data| == r.total
              && r.body == data[r.first..r.last + 1] && r.contentLength == |r.body| >= 1
  {
  }

  function RangeHeader(first: nat, last: Option<nat>): string {
    "bytes=" + Itoa(first) + "-" + (if last.Some? then Itoa(last.value) else "")
  }

  /** What section 14.1.2 of RFC 9110 asks for a well-formed int-range. */
  function RfcResponse(data: string, first: nat, last: Option<nat>): Response {
    if first >= |data| then NotSatisfiable
    else
      var end := ClampLast(|data|, last);
      PartialContent(first, end, |data|, end - first + 1, if first <= end then data[first..end + 1] else "")
  }

  lemma ServeWellFormed(data: string, first: nat, last: Option<nat>)
    ensures Serve(data, RangeHeader(first, last))
         == Respond(data, [Itoa(first), if last.Some? then Itoa(last.value) else ""])
  {
    var a, b := Itoa(first), if last.Some? then Itoa(last.value) else "";
    var header := RangeHeader(first, last);
    assert header == "bytes=" + (a + ['-'] + b);
    assert header[|"bytes="|..] == a + ['-'] + b;
    SplitOnce(a, b, '-');
  }

  lemma PrintedPositions(len: nat, first: nat, last: Option<nat>)
    requires len <= MAX_INT64
    ensures FirstPos(Itoa(first)) == if first <= MAX_INT64 then first else 0
    ensures LastPos(len, if last.Some? then Itoa(last.value) else "")
         == ClampLast(len, last)
  {
    ParsePrinted(first);
    if last.Some? {
      ParsePrinted(last.value);
    }
  }

  /**
   A well-formed range is answered as the RFC asks if and only if its first position fits in 64
   bits (or there is nothing to serve); a larger one is read as position 0.
   */
  lemma AgreesWithRfcExactly(data: string, first: nat, last: Option<nat>)
    requires |data| <= MAX_INT64 && (last.Some? ==> first <= last.value)
    ensures Serve(data, RangeHeader(first, last)) == RfcResponse(data, first, last) <==>
            first <= MAX_INT64 || data == ""
  {
    ServeWellFormed(data, first, last);
    RespondToPrinted(data, first, last);
    ReadFromZero(data, first, last);
  }

  lemma RespondToPrinted(data: string, first: nat, last: Option<nat>)
    requires |data| <= MAX_INT64
    ensures Respond(data, [Itoa(first), if last.Some? then Itoa(last.value) else ""])
         == RespondBetween(data, if first <= MAX_INT64 then first else 0, ClampLast(|data|, last))
  {
    PrintedPositions(|data|, first, last);
  }

  lemma ReadFromZero(data: string, first: nat, last: Option<nat>)
    requires |data| <= MAX_INT64 && (last.Some? ==> first <= last.value)
    ensures RespondBetween(data, if first <= MAX_INT64 then first else 0, ClampLast(|data|, last)) == RfcResponse(data, first, last) <==>
            first <= MAX_INT64 || data == ""
  {
  }

  // ---------------------------------------------------------------- headers the RFC has other answers for

  function Dashes(s: string): nat {
    if s == "" then 0 else (if s[0] == '-' then 1 else 0) + Dashes(s[1..])
  }

  lemma {:induction false} SplitCounts(s: string)
    ensures |Split(s, '-')| == 1 + Dashes(s)
  {
    if s == "" {
    } else {
      SplitCounts(s[1..]);
    }
  }

  /** A header with any number of dashes but one is refused. */
  lemma OneDashNeeded(data: string, header: string)
    requires Dashes(TrimPrefix(header, "bytes=")) != 1
    ensures Serve(data, header) == NotSatisfiable
  {
    SplitCounts(TrimPrefix(header, "bytes="));
  }

  lemma ServeParts(data: string, a: string, b: string)
    requires Free(a, '-') && Free(b, '-')
    ensures Serve(data, "bytes=" + a + "-" + b) == Respond(data, [a, b])
  {
    var header := "bytes=" + a + "-" + b;
    assert header == "bytes=" + (a + ['-'] + b);
    assert header[|"bytes="|..] == a + ['-'] + b;
    SplitOnce(a, b, '-');
  }

  /** The unit may be left out. */
  lemma UnitIsOptional(data: string, header: string)
    requires !("bytes=" <= header)
    ensures Serve(data, header) == Serve(data, "bytes=" + header)
  {
    assert ("bytes=" + header)[|"bytes="|..] == header;
  }

  /** What cannot be read as a number counts as the first or the last position. */
  lemma UnreadablePositions(data: string, a: string, b: string)
    requires Free(a, '-') && Free(b, '-') && ParseInt(a).None? && ParseInt(b).None?
    ensures Serve(data, "bytes=" + a + "-" + b) ==
            if data == "" then NotSatisfiable else PartialContent(0, |data| - 1, |data|, |data|, data)
  {
    ServeParts(data, a, b);
    assert data[0..|data|] == data;
  }

  /** "bytes=-n", which asks for the last n bytes, is answered with the first n + 1. */
  lemma SuffixServedFromStart(data: string, n: nat)
    requires n < |data| <= MAX_INT64
    ensures Serve(data, "bytes=" + "" + "-" + Itoa(n)) == PartialContent(0, n, |data|, n + 1, data[..n + 1])
  {
    ServeParts(data, "", Itoa(n));
    PrintedPositions(|data|, 0, Some(n));
    FirstBytes(data, n);
  }

  lemma FirstBytes(data: string, n: nat)
    requires n < |data|
    ensures RespondBetween(data, 0, n) == PartialContent(0, n, |data|, n + 1, data[..n + 1])
  {
    assert data[0..n + 1] == data[..n + 1];
  }

  // ---------------------------------------------------------------- resuming clients

  lemma ResumeServesRest(data: string, got: nat)
    requires got < |data| <= MAX_INT64
    ensures Serve(data, RangeHeader(got, None)) == PartialContent(got, |data| - 1, |data|, |data| - got, data[got..])
  {
    AgreesWithRfcExactly(data, got, None);
    RfcRest(data, got);
  }

  lemma RfcRest(data: string, got: nat)
    requires got < |data|
    ensures RfcResponse(data, got, None) == PartialContent(got, |data| - 1, |data|, |data| - got, data[got..])
  {
    assert data[got..|data|] == data[got..];
  }

  /**
   Asks for what is missing, keeps whatever nonempty prefix of the answer arrives before the
   connection breaks, and tries again.
   */
  method Download(data: string) returns (got: string)
    requires |data| <= MAX_INT64
    ensures got == data
  {
    got := "";
    while |got| < |data|
      invariant got <= data
    {
      ResumeServesRest(data, |got|);
      var r := HandleRangeRequest(data, RangeHeader(|got|, None));
      var kept: nat :| 1 <= kept <= |r.body|;
      got := got + r.body[..kept];
    }
  }

  /** Storage in which every chunk of an export can be found under its path. */
  ghost predicate HasExport(storage: map<string, string>, naming: nat -> Location, data: string) {
    forall i: nat :: i < |Cut(data)| ==> naming(i).path in storage && storage[naming(i).path] == Cut(data)[i]
  }

  /**
   Downloads every chunk of a stored export, by index, into a directory of named files, and
   concatenates them.
   */
  method DownloadExport(storage: map<string, string>, naming: nat -> Location, chunkCount: nat, ghost data: string)
    returns (result: string, dir: map<string, string>)
    requires chunkCount == |Cut(data)| && HasExport(storage, naming, data) && Distinct(naming)
    ensures result == data
    ensures Holds(dir, naming, Cut(data))
  {
    ghost var parts := Cut(data);
    ChunksReassemble(data);
    result, dir := "", map[];
    for i := 0 to chunkCount
      invariant result + Concat(parts[i..]) == data
      invariant Holds(dir, naming, parts[..i])
    {
      assert |parts[i]| <= MAX_INT64 by { ChunkSizes(data); }
      var chunk := Download(storage[naming(i).path]);
      ConcatFrom(parts, i);
      assert result + (chunk + Concat(parts[i + 1..])) == result + chunk + Concat(parts[i + 1..]);
      HoldsOneMore(dir, naming, parts, i);
      result, dir := result + chunk, dir[naming(i).name := chunk];
    }
    assert result + "" == result && parts[..chunkCount] == parts;
  }

  lemma HoldsOneMore(dir: map<string, string>, naming: nat -> Location, parts: seq<string>, i: nat)
    requires i < |parts| && Distinct(naming) && Holds(dir, naming, parts[..i])
    ensures Holds(dir[naming(i).name := parts[i]], naming, parts[..i + 1])
  {
    forall j: nat | j < i + 1
      ensures naming(j).name in dir[naming(i).name := parts[i]]
      ensures dir[naming(i).name := parts[i]][naming(j).name] == parts[..i + 1][j]
    {
      if j < i {
        assert parts[..i][j] == parts[j];
      }
    }
  }

  /**
   The whole pipeline, for every byte string and every hash: cut and store, write the manifest,
   download through interrupted range requests, and run both checks of the verifier on the result.
   */
  method ExportRoundTrip(H: string -> string, data: string, jobId: string)
    returns (m: Manifest, verified: bool, failed: seq<string>, got: string)
    ensures verified && failed == [] && got == data
    ensures m.totalSize == |data| && m.chunkCount == |m.files|
  {
    var service := new ExportService(H);
    var files := service.CreateChunks(data, jobId, _ => true);
    m := CreateManifest(H, jobId, files.value);
    var naming := Naming(jobId);
    JobNamingDistinct(jobId);
    StoredReadBack(map[], naming, Cut(data), |Cut(data)|);
    var dir;
    got, dir := DownloadExport(service.storage, naming, m.chunkCount, data);
    ExportPassesChecks(H, jobId, naming, data, dir, m);
    verified := VerifyMerkleTree(H, m);
    failed := CheckFiles(H, m, dir);
  }
}

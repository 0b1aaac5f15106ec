/**
 Exports, from the producer to the verifier: cutting the bytes into stored chunks, the manifest,
 and the CLI's two checks.  Go byte slices and strings are both modelled as `string`.
 */
module Export {
  import opened Wrappers
  import opened Decimal
  import opened Merkle

  const CHUNK_SIZE: nat := 10 * 1024 * 1024

  datatype FileInfo = FileInfo(
    name: string, path: string, size: int, checksum: string, chunkIndex: int, startByte: int, endByte: int)

  datatype Manifest = Manifest(
    jobId: string, totalRecords: int, totalSize: int, chunkCount: int, merkleRoot: string, files: seq<FileInfo>)

  // ---------------------------------------------------------------- cutting

  /** The chunks of a byte string, in order. */
  function Cut(data: string): seq<string>
    decreases |data|
  {
    if data == "" then []
    else if |data| <= CHUNK_SIZE then [data]
    else [data[..CHUNK_SIZE]] + Cut(data[CHUNK_SIZE..])
  }

  function Concat(parts: seq<string>): string {
    if parts == [] then "" else parts[0] + Concat(parts[1..])
  }

  lemma ConcatFrom(parts: seq<string>, i: nat)
    requires i < |parts|
    ensures Concat(parts[i..]) == parts[i] + Concat(parts[i + 1..])
  {
    assert parts[i..][1..] == parts[i + 1..];
  }

  /** Bytes before the i-th part. */
  function Offset(parts: seq<string>, i: nat): nat
    requires i <= |parts|
    decreases i
  {
    if i == 0 then 0 else Offset(parts, i - 1) + |parts[i - 1]|
  }

  datatype Location = Location(name: string, path: string)

  /** The location of the i-th chunk of a job.  Most lemmas hold for any such naming. */
  function Naming(jobId: string): nat -> Location {
    (i: nat) =>
      var filename := jobId + "_chunk_" + Pad3(i) + ".dat";
      Location(filename, "exports/" + jobId + "/" + filename)
  }

  ghost predicate Distinct(naming: nat -> Location) {
    forall i: nat, j: nat :: naming(i).path == naming(j).path || naming(i).name == naming(j).name ==> i == j
  }

  /** What the manifest records for the i-th part. */
  function Info(H: string -> string, naming: nat -> Location, parts: seq<string>, i: nat): FileInfo
    requires i < |parts|
  {
    FileInfo(naming(i).name, naming(i).path, |parts[i]|, H(parts[i]), i, Offset(parts, i), Offset(parts, i + 1) - 1)
  }

  function Infos(H: string -> string, naming: nat -> Location, parts: seq<string>): (r: seq<FileInfo>)
    ensures |r| == |parts|
  {
    seq(|parts|, i requires 0 <= i < |parts| => Info(H, naming, parts, i))
  }

  /** Storage after the first `n` parts have been written. */
  function Stored(storage: map<string, string>, naming: nat -> Location, parts: seq<string>, n: nat): map<string, string>
    requires n <= |parts|
    decreases n
  {
    if n == 0 then storage
    else Stored(storage, naming, parts, n - 1)[naming(n - 1).path := parts[n - 1]]
  }

  class ExportService {
    const H: string -> string
    var storage: map<string, string>

    constructor (H: string -> string)
      ensures this.H == H && storage == map[]
    {
      this.H := H;
      storage := map[];
    }

    /**
     `createChunks`.  `accepts(i)` says whether the storage backend takes the i-th chunk; the first
     refusal ends the call and leaves the chunks already written in place.
     */
    method CreateChunks(data: string, jobId: string, accepts: nat -> bool) returns (result: Option<seq<FileInfo>>)
      modifies this
      ensures result.Some? <==> forall i :: 0 <= i < |Cut(data)| ==> accepts(i)
      ensures result.Some? ==>
                && result.value == Infos(H, Naming(jobId), Cut(data))
                && storage == Stored(old(storage), Naming(jobId), Cut(data), |Cut(data)|)
      ensures result.None? ==>
                exists n :: 0 <= n < |Cut(data)| && !accepts(n) && (forall i :: 0 <= i < n ==> accepts(i))
                            && storage == Stored(old(storage), Naming(jobId), Cut(data), n)
    {
      var ok, chunks := CutAndStore(data, Naming(jobId), accepts);
      result := if ok then Some(chunks) else None;
    }

    method CutAndStore(data: string, naming: nat -> Location, accepts: nat -> bool)
      returns (ok: bool, chunks: seq<FileInfo>)
      modifies this
      ensures chunks <= Infos(H, naming, Cut(data))
      ensures storage == Stored(old(storage), naming, Cut(data), |chunks|)
      ensures forall j :: 0 <= j < |chunks| ==> accepts(j)
      ensures if ok then |chunks| == |Cut(data)| else |chunks| < |Cut(data)| && !accepts(|chunks|)
    {
      ghost var parts := Cut(data);
      chunks := [];
      var i := 0;
      while i < |data|
        invariant AtPart(data, |chunks|, i)
        invariant chunks <= Infos(H, naming, parts)
        invariant storage == Stored(old(storage), naming, parts, |chunks|)
        invariant forall j :: 0 <= j < |chunks| ==> accepts(j)
        decreases |data| - i
      {
        var end := i + CHUNK_SIZE;
        if end > |data| {
          end := |data|;
        }
        NextPart(data, |chunks|, i);
        if !accepts(|chunks|) {
          return false, chunks;
        }
        chunks := StoreChunk(chunks, naming, data[i..end], i, parts, old(storage));
        i := i + CHUNK_SIZE;
      }
      ok := true;
    }

    /** One accepted round of the loop: store the chunk that starts at byte `i` and record it. */
    method StoreChunk(chunks: seq<FileInfo>, naming: nat -> Location, chunk: string, i: nat,
                      ghost parts: seq<string>, ghost before: map<string, string>)
      returns (longer: seq<FileInfo>)
      requires |chunks| < |parts| && chunk == parts[|chunks|] && i == Offset(parts, |chunks|)
      requires chunks <= Infos(H, naming, parts) && storage == Stored(before, naming, parts, |chunks|)
      modifies this
      ensures |longer| == |chunks| + 1 && longer <= Infos(H, naming, parts)
      ensures storage == Stored(before, naming, parts, |longer|)
    {
      var at := naming(|chunks|);
      var info := FileInfo(at.name, at.path, |chunk|, H(chunk), |chunks|, i, i + |chunk| - 1);
      storage := storage[at.path := chunk];
      longer := chunks + [info];
    }
  }

  /** Byte position `i` is where the n-th chunk starts, or lies past the end when none is left. */
  ghost predicate AtPart(data: string, n: nat, i: nat) {
    && n <= |Cut(data)|
    && (i < |data| ==> Cut(data)[n..] == Cut(data[i..]) && Offset(Cut(data), n) == i)
    && (i >= |data| ==> n == |Cut(data)|)
  }

  lemma NextPart(data: string, n: nat, i: nat)
    requires AtPart(data, n, i) && i < |data|
    ensures n < |Cut(data)| && Offset(Cut(data), n) == i
    ensures Cut(data)[n] == data[i..if i + CHUNK_SIZE > |data| then |data| else i + CHUNK_SIZE]
    ensures AtPart(data, n + 1, i + CHUNK_SIZE)
  {
    var rest := data[i..];
    assert Cut(data)[n] == Cut(data)[n..][0] == Cut(rest)[0];
    assert Cut(data)[n + 1..] == Cut(data)[n..][1..];
    if |rest| > CHUNK_SIZE {
      assert rest[CHUNK_SIZE..] == data[i + CHUNK_SIZE..];
      assert rest[..CHUNK_SIZE] == data[i..i + CHUNK_SIZE];
    }
  }

  /** The chunks concatenate to the exported bytes. */
  lemma {:induction false} ChunksReassemble(data: string)
    ensures Concat(Cut(data)) == data
    decreases |data|
  {
    if |data| > CHUNK_SIZE {
      ChunksReassemble(data[CHUNK_SIZE..]);
      assert Cut(data)[1..] == Cut(data[CHUNK_SIZE..]);
      assert data == data[..CHUNK_SIZE] + data[CHUNK_SIZE..];
    } else if data != "" {
      assert Cut(data)[1..] == [];
      assert data + "" == data;
    }
  }

  /** ceil(len / chunk size) chunks, none empty, all but the last full. */
  lemma {:induction false} ChunkSizes(data: string)
    ensures |Cut(data)| == (|data| + CHUNK_SIZE - 1) / CHUNK_SIZE
    ensures forall i :: 0 <= i < |Cut(data)| ==> 1 <= |Cut(data)[i]| <= CHUNK_SIZE
    ensures forall i :: 0 <= i < |Cut(data)| - 1 ==> |Cut(data)[i]| == CHUNK_SIZE
    decreases |data|
  {
    if |data| <= CHUNK_SIZE {
    } else {
      ChunkSizes(data[CHUNK_SIZE..]);
    }
  }

  /** Every chunk but the last has 10 MiB. */
  lemma ChunksAreTenMebibytes(data: string)
    ensures |Cut(data)| == (|data| + 10_485_759) / 10_485_760
    ensures forall i :: 0 <= i < |Cut(data)| - 1 ==> |Cut(data)[i]| == 10_485_760
  {
    ChunkSizes(data);
  }

  lemma {:induction false} OffsetIsLength(parts: seq<string>, i: nat)
    requires i <= |parts|
    ensures Offset(parts, i) + |Concat(parts[i..])| == |Concat(parts)|
    decreases i
  {
    if i == 0 {
      assert parts[0..] == parts;
    } else {
      OffsetIsLength(parts, i - 1);
      assert parts[i - 1..][1..] == parts[i..];
    }
  }

  lemma RangeOf(H: string -> string, naming: nat -> Location, parts: seq<string>, i: nat)
    requires i < |parts| && |parts[i]| >= 1
    ensures var f := Info(H, naming, parts, i);
            && 0 <= f.startByte <= f.endByte < |Concat(parts)|
            && f.size == f.endByte - f.startByte + 1
            && (i == 0 ==> f.startByte == 0)
            && (i > 0 ==> f.startByte == Info(H, naming, parts, i - 1).endByte + 1)
            && (i == |parts| - 1 ==> f.endByte == |Concat(parts)| - 1)
  {
    OffsetIsLength(parts, i + 1);
    assert i == |parts| - 1 ==> parts[i + 1..] == [];
  }

  /** The i-th byte range is nonempty, inside the data, and starts where the one before it ends. */
  ghost predicate TilesAt(files: seq<FileInfo>, total: nat, i: nat)
    requires i < |files|
  {
    && files[i].chunkIndex == i
    && 0 <= files[i].startByte <= files[i].endByte < total
    && files[i].size == files[i].endByte - files[i].startByte + 1
    && files[i].startByte == (if i == 0 then 0 else files[i - 1].endByte + 1)
    && (i == |files| - 1 ==> files[i].endByte == total - 1)
  }

  /** The byte ranges cover the data in order, without gap or overlap, from the first byte to the last. */
  lemma RangesTile(H: string -> string, naming: nat -> Location, data: string)
    ensures forall i: nat :: i < |Cut(data)| ==> TilesAt(Infos(H, naming, Cut(data)), |data|, i)
    ensures Infos(H, naming, Cut(data)) == [] <==> data == ""
  {
    ChunksReassemble(data);
    forall i: nat | i < |Cut(data)| ensures TilesAt(Infos(H, naming, Cut(data)), |data|, i) {
      assert |Cut(data)[i]| >= 1 by { ChunkSizes(data); }
      RangeOf(H, naming, Cut(data), i);
    }
  }

  lemma JobNamingDistinct(jobId: string)
    ensures Distinct(Naming(jobId))
  {
    var naming := Naming(jobId);
    forall i: nat, j: nat | naming(i).path == naming(j).path || naming(i).name == naming(j).name
      ensures i == j
    {
      NameDetermines(jobId, i, j);
    }
  }

  lemma NameDetermines(jobId: string, i: nat, j: nat)
    requires Naming(jobId)(i).path == Naming(jobId)(j).path || Naming(jobId)(i).name == Naming(jobId)(j).name
    ensures i == j
  {
    var ni, nj := Naming(jobId)(i).name, Naming(jobId)(j).name;
    var p, q := jobId + "_chunk_", "exports/" + jobId + "/";
    assert ni == p + (Pad3(i) + ".dat") && nj == p + (Pad3(j) + ".dat");
    if Naming(jobId)(i).path == Naming(jobId)(j).path {
      SplitEqual(q, ni, q, nj);
    }
    SplitEqual(p, Pad3(i) + ".dat", p, Pad3(j) + ".dat");
    assert (Pad3(i) + ".dat")[..|Pad3(i)|] == Pad3(i) && (Pad3(j) + ".dat")[..|Pad3(j)|] == Pad3(j);
    PaddedInjective(i, j);
  }

  lemma PaddingReads()
    ensures Pad3(7) == "007" && Pad3(42) == "042" && Pad3(512) == "512"
  {
    assert Itoa(5) == "5" && Itoa(51) == "51" && Itoa(4) == "4";
  }

  /** How names and keys read. */
  lemma NamesRead(jobId: string)
    ensures Naming(jobId)(7) == Location(jobId + "_chunk_" + "007" + ".dat", "exports/" + jobId + "/" + (jobId + "_chunk_" + "007" + ".dat"))
  {
    PaddingReads();
  }

  function TrailingDigits(s: string): nat {
    if s == "" || !IsDigit(s[|s| - 1]) then 0 else 1 + TrailingDigits(s[..|s| - 1])
  }

  lemma {:induction false} TrailingOf(front: string, digits: string)
    requires front != "" && !IsDigit(front[|front| - 1]) && AllDigits(digits)
    ensures TrailingDigits(front + digits) == |digits|
  {
    var s := front + digits;
    if digits == "" {
      assert s == front;
    } else {
      TrailingOf(front, digits[..|digits| - 1]);
      assert s[..|s| - 1] == front + digits[..|digits| - 1];
    }
  }

  /** The key of job `jobId` and a chunk index of `n` digits. */
  ghost predicate IsKeyOf(key: string, jobId: string, n: nat) {
    |key| == 20 + 2 * |jobId| + n && key[8..8 + |jobId|] == jobId && TrailingDigits(key[..|key| - 4]) == n
  }

  lemma KeyParts(jobId: string, i: nat)
    ensures IsKeyOf(Naming(jobId)(i).path, jobId, |Pad3(i)|)
  {
    var key, front := Naming(jobId)(i).path, "exports/" + jobId + "/" + (jobId + "_chunk_");
    assert key == front + Pad3(i) + ".dat";
    assert key[..|key| - 4] == front + Pad3(i);
    TrailingOf(front, Pad3(i));
  }

  lemma KeyJob(key: string, job1: string, job2: string, n1: nat, n2: nat)
    requires IsKeyOf(key, job1, n1) && IsKeyOf(key, job2, n2)
    ensures job1 == job2
  {
  }

  /** A storage key determines its job and its chunk: no export overwrites another's chunks. */
  lemma StorageKeysDistinct(job1: string, job2: string, i: nat, j: nat, key: string)
    requires key == Naming(job1)(i).path && key == Naming(job2)(j).path
    ensures job1 == job2 && i == j
  {
    KeyParts(job1, i);
    KeyParts(job2, j);
    KeyJob(key, job1, job2, |Pad3(i)|, |Pad3(j)|);
    NameDetermines(job1, i, j);
  }

  /** Every chunk can be read back under its own key, and no other key is disturbed. */
  lemma {:induction false} StoredReadBack(storage: map<string, string>, naming: nat -> Location, parts: seq<string>, n: nat)
    requires n <= |parts| && Distinct(naming)
    ensures forall i: nat :: i < n ==>
              naming(i).path in Stored(storage, naming, parts, n)
              && Stored(storage, naming, parts, n)[naming(i).path] == parts[i]
    ensures forall k :: k in storage && (forall i: nat :: i < n ==> k != naming(i).path) ==>
              k in Stored(storage, naming, parts, n) && Stored(storage, naming, parts, n)[k] == storage[k]
    decreases n
  {
    if n == 0 {
    } else {
      StoredReadBack(storage, naming, parts, n - 1);
      var before, after := Stored(storage, naming, parts, n - 1), Stored(storage, naming, parts, n);
      forall i: nat | i < n ensures naming(i).path in after && after[naming(i).path] == parts[i] {
        assert naming(i).path == naming(n - 1).path ==> i == n - 1;
      }
      forall k | k in storage && forall i: nat :: i < n ==> k != naming(i).path
        ensures k in after && after[k] == storage[k]
      {
        assert k != naming(n - 1).path;
      }
    }
  }

  /** The i-th record names the key its chunk was stored under, and describes what is stored there. */
  lemma RecordedWhereStored(H: string -> string, storage: map<string, string>, naming: nat -> Location, data: string, i: nat)
    requires i < |Cut(data)| && Distinct(naming)
    ensures var f, after := Infos(H, naming, Cut(data))[i], Stored(storage, naming, Cut(data), |Cut(data)|);
            && f.path in after && after[f.path] == Cut(data)[i] && f.path == naming(i).path && f.name == naming(i).name
            && f.size == |after[f.path]| && f.checksum == H(after[f.path]) && f.chunkIndex == i
  {
    StoredReadBack(storage, naming, Cut(data), |Cut(data)|);
  }

  // ---------------------------------------------------------------- manifest

  function TotalSize(files: seq<FileInfo>): int {
    if files == [] then 0 else TotalSize(files[..|files| - 1]) + files[|files| - 1].size
  }

  method CalculateTotalSize(files: seq<FileInfo>) returns (total: int)
    ensures total == TotalSize(files)
  {
    total := 0;
    for i := 0 to |files|
      invariant total == TotalSize(files[..i])
    {
      assert files[..i + 1][..i] == files[..i];
      total := total + files[i].size;
    }
    assert files[..|files|] == files;
  }

  function Checksums(files: seq<FileInfo>): seq<string> {
    seq(|files|, i requires 0 <= i < |files| => files[i].checksum)
  }

  function MakeManifest(H: string -> string, jobId: string, files: seq<FileInfo>): Manifest {
    Manifest(jobId, |files|, TotalSize(files), |files|, "merkle:" + Root(H, Checksums(files)), files)
  }

  /** `generateCryptoProofs` (its root) followed by `createManifest`. */
  method CreateManifest(H: string -> string, jobId: string, files: seq<FileInfo>) returns (m: Manifest)
    ensures m == MakeManifest(H, jobId, files)
  {
    var hashes := [];
    for i := 0 to |files|
      invariant hashes == Checksums(files)[..i]
    {
      hashes := hashes + [files[i].checksum];
    }
    assert hashes == Checksums(files);
    var root := BuildMerkleTree(H, hashes);
    var total := CalculateTotalSize(files);
    m := Manifest(jobId, |files|, total, |files|, "merkle:" + root, files);
  }

  // ---------------------------------------------------------------- the CLI's checks

  function TrimPrefix(s: string, prefix: string): string {
    if prefix <= s then s[|prefix|..] else s
  }

  predicate MerkleCheck(H: string -> string, m: Manifest) {
    Root(H, Checksums(m.files)) == TrimPrefix(m.merkleRoot, "merkle:")
  }

  predicate FileCheck(H: string -> string, dir: map<string, string>, f: FileInfo) {
    f.name in dir && |dir[f.name]| == f.size && H(dir[f.name]) == f.checksum
  }

  /** The three ways a file can fail. */
  predicate Fails(H: string -> string, dir: map<string, string>, f: FileInfo) {
    f.name !in dir || |dir[f.name]| != f.size || H(dir[f.name]) != f.checksum
  }

  /** The check fails for a missing file, one of another length, and one of another checksum, and for no other. */
  lemma ChecksExactly(H: string -> string, dir: map<string, string>, files: seq<FileInfo>)
    ensures AllFilesCheck(H, dir, files) <==>
            forall f :: f in files ==> f.name in dir && |dir[f.name]| == f.size && H(dir[f.name]) == f.checksum
  {
    forall i | 0 <= i < |files| ensures files[i] in files { }
    if forall f :: f in files ==> f.name in dir && |dir[f.name]| == f.size && H(dir[f.name]) == f.checksum {
      forall i | 0 <= i < |files| ensures FileCheck(H, dir, files[i]) {
        assert files[i] in files;
      }
    } else {
      var f :| f in files && !(f.name in dir && |dir[f.name]| == f.size && H(dir[f.name]) == f.checksum);
      var i :| 0 <= i < |files| && files[i] == f;
      assert !FileCheck(H, dir, files[i]);
    }
  }

  predicate AllFilesCheck(H: string -> string, dir: map<string, string>, files: seq<FileInfo>) {
    forall i :: 0 <= i < |files| ==> FileCheck(H, dir, files[i])
  }

  method VerifyMerkleTree(H: string -> string, m: Manifest) returns (ok: bool)
    ensures ok == MerkleCheck(H, m)
  {
    var hashes := [];
    for i := 0 to |m.files|
      invariant hashes == Checksums(m.files)[..i]
    {
      hashes := hashes + [m.files[i].checksum];
    }
    assert hashes == Checksums(m.files);
    var computed := BuildMerkleTree(H, hashes);
    ok := computed == TrimPrefix(m.merkleRoot, "merkle:");
  }

  /** `checkFiles` over a directory of named files; returns the names that failed, in order. */
  method CheckFiles(H: string -> string, m: Manifest, dir: map<string, string>) returns (failed: seq<string>)
    ensures failed == [] <==> AllFilesCheck(H, dir, m.files)
    ensures forall n :: n in failed <==> exists i :: 0 <= i < |m.files| && m.files[i].name == n && Fails(H, dir, m.files[i])
  {
    failed := [];
    for i := 0 to |m.files|
      invariant failed == [] <==> AllFilesCheck(H, dir, m.files[..i])
      invariant forall n :: n in failed <==> exists j :: 0 <= j < i && m.files[j].name == n && Fails(H, dir, m.files[j])
    {
      var f := m.files[i];
      if !(f.name in dir) || |dir[f.name]| != f.size || H(dir[f.name]) != f.checksum {
        failed := failed + [f.name];
      }
    }
  }

  // ---------------------------------------------------------------- producer meets verifier

  /** The export as a directory of downloaded chunks. */
  ghost predicate Holds(dir: map<string, string>, naming: nat -> Location, parts: seq<string>) {
    forall i: nat :: i < |parts| ==> naming(i).name in dir && dir[naming(i).name] == parts[i]
  }

  lemma OwnRootChecks(H: string -> string, jobId: string, files: seq<FileInfo>)
    ensures MerkleCheck(H, MakeManifest(H, jobId, files))
  {
    var root := Root(H, Checksums(files));
    assert ("merkle:" + root)[|"merkle:"|..] == root;
  }

  lemma OwnFilesCheck(H: string -> string, naming: nat -> Location, parts: seq<string>, dir: map<string, string>)
    requires Holds(dir, naming, parts)
    ensures AllFilesCheck(H, dir, Infos(H, naming, parts))
  {
  }

  lemma {:induction false} SizesAddUp(H: string -> string, naming: nat -> Location, parts: seq<string>, n: nat)
    requires n <= |parts|
    ensures TotalSize(Infos(H, naming, parts)[..n]) == Offset(parts, n)
    decreases n
  {
    if n == 0 {
    } else {
      SizesAddUp(H, naming, parts, n - 1);
      var front := Infos(H, naming, parts)[..n];
      assert front[..n - 1] == Infos(H, naming, parts)[..n - 1];
    }
  }

  /** Every export, the empty one included, passes both checks, and its manifest counts every byte. */
  lemma ExportPassesChecks(H: string -> string, jobId: string, naming: nat -> Location, data: string,
                           dir: map<string, string>, m: Manifest)
    requires Holds(dir, naming, Cut(data))
    requires m == MakeManifest(H, jobId, Infos(H, naming, Cut(data)))
    ensures MerkleCheck(H, m) && AllFilesCheck(H, dir, m.files)
    ensures m.totalSize == |data| && m.chunkCount == m.totalRecords == |Cut(data)| && m.jobId == jobId
  {
    var parts := Cut(data);
    OwnRootChecks(H, jobId, m.files);
    OwnFilesCheck(H, naming, parts, dir);
    SizesAddUp(H, naming, parts, |parts|);
    assert m.files[..|parts|] == m.files;
    OffsetIsLength(parts, |parts|);
    ChunksReassemble(data);
  }

  function Contents(dir: map<string, string>, files: seq<FileInfo>): seq<string>
    requires forall i :: 0 <= i < |files| ==> files[i].name in dir
  {
    seq(|files|, i requires 0 <= i < |files| => dir[files[i].name])
  }

  /** Everything hashed when a list of files is summed and folded. */
  ghost function Hashed(H: string -> string, contents: seq<string>, checksums: seq<string>): set<string> {
    (set c | c in contents) + RootInputs(H, checksums)
  }

  /**
   Content binding: files that pass both checks against any manifest carrying the original root
   and the original number of files concatenate to the exported bytes, unless two of the strings
   hashed in the export and in the check collide.
   */
  lemma ContentBinding(H: string -> string, jobId: string, naming: nat -> Location, data: string,
                       original: Manifest, m: Manifest, dir: map<string, string>)
    requires FixedWidth(H)
    requires original == MakeManifest(H, jobId, Infos(H, naming, Cut(data)))
    requires m.merkleRoot == original.merkleRoot && |m.files| == |original.files|
    requires MerkleCheck(H, m) && AllFilesCheck(H, dir, m.files)
    requires CollisionFree(H, Hashed(H, Cut(data), Checksums(original.files))
                              + Hashed(H, Contents(dir, m.files), Checksums(m.files)))
    ensures Concat(Contents(dir, m.files)) == data
  {
    OwnRootChecks(H, jobId, original.files);
    BoundByRoot(H, original.files, m.files, Cut(data), Contents(dir, m.files));
    ChunksReassemble(data);
  }

  lemma BoundByRoot(H: string -> string, files: seq<FileInfo>, claimed: seq<FileInfo>, parts: seq<string>, held: seq<string>)
    requires FixedWidth(H) && |files| == |claimed| == |parts| == |held|
    requires forall i :: 0 <= i < |parts| ==> files[i].checksum == H(parts[i]) && claimed[i].checksum == H(held[i])
    requires Root(H, Checksums(files)) == Root(H, Checksums(claimed))
    requires CollisionFree(H, Hashed(H, parts, Checksums(files)) + Hashed(H, held, Checksums(claimed)))
    ensures held == parts
  {
    var a, b := Checksums(files), Checksums(claimed);
    RootBindsLeaves(H, a, b);
    forall i | 0 <= i < |held| ensures held[i] == parts[i] {
      assert a[i] == b[i] && held[i] in held && parts[i] in parts;
    }
  }

  lemma RepeatLast(H: string -> string, dir: map<string, string>, files: seq<FileInfo>, longer: seq<FileInfo>)
    requires |files| > 1 && |files| % 2 == 1 && longer == files + [files[|files| - 1]]
    requires AllFilesCheck(H, dir, files)
    ensures AllFilesCheck(H, dir, longer) && Root(H, Checksums(longer)) == Root(H, Checksums(files))
    ensures Contents(dir, longer) == Contents(dir, files) + [Contents(dir, files)[|files| - 1]]
  {
    RepeatedLastLeafKeepsRoot(H, Checksums(files));
    assert Checksums(longer) == Checksums(files) + [Checksums(files)[|files| - 1]];
  }

  /**
   The fixed number of files is needed: listing the last of an odd number of files twice keeps the
   root and passes both checks, whatever the hash, and yields the last chunk twice.
   */
  lemma RepeatedFilePasses(H: string -> string, jobId: string, naming: nat -> Location, data: string,
                           dir: map<string, string>, m: Manifest, longer: Manifest)
    requires Holds(dir, naming, Cut(data)) && |Cut(data)| > 1 && |Cut(data)| % 2 == 1
    requires m == MakeManifest(H, jobId, Infos(H, naming, Cut(data)))
    requires longer == m.(files := m.files + [m.files[|m.files| - 1]])
    ensures MerkleCheck(H, longer) && AllFilesCheck(H, dir, longer.files)
    ensures Contents(dir, longer.files) == Cut(data) + [Cut(data)[|Cut(data)| - 1]]
  {
    OwnRootChecks(H, jobId, m.files);
    OwnFilesCheck(H, naming, Cut(data), dir);
    RepeatLast(H, dir, m.files, longer.files);
    assert Contents(dir, m.files) == Cut(data);
  }

  // ---------------------------------------------------------------- when the number of files is free

  lemma {:induction false} ConcatLength(a: seq<string>, b: seq<string>)
    ensures |Concat(a + b)| == |Concat(a)| + |Concat(b)|
  {
    if a == [] {
      assert a + b == b;
    } else {
      assert (a + b)[1..] == a[1..] + b;
      ConcatLength(a[1..], b);
    }
  }

  /** Adding nonempty parts makes the whole longer. */
  lemma LongerConcat(fewer: seq<string>, more: seq<string>)
    requires |fewer| < |more| && fewer == more[..|fewer|] && forall i :: |fewer| <= i < |more| ==> more[i] != ""
    ensures |Concat(fewer)| < |Concat(more)|
  {
    var extra := more[|fewer|..];
    ConcatLength(fewer, extra);
    assert more == fewer + extra;
    assert extra[0] == more[|fewer|];
  }

  /** The files `claimed` hold the parts in order: a beginning of them, or all and some repeated. */
  lemma SharedRootContents(H: string -> string, a: seq<string>, b: seq<string>, short: seq<string>, long: seq<string>)
    requires FixedWidth(H) && 1 <= |a| == |short| <= |b| == |long| && Depth(|a|) == Depth(|b|)
    requires forall i :: 0 <= i < |a| ==> a[i] == H(short[i])
    requires forall i :: 0 <= i < |b| ==> b[i] == H(long[i])
    requires Root(H, a) == Root(H, b)
    requires CollisionFree(H, Hashed(H, short, a) + Hashed(H, long, b))
    ensures short == long[..|short|] && DrawnFrom(long, short)
  {
    SharedRootExtends(H, a, b);
    forall i | 0 <= i < |short| ensures short[i] == long[i] {
      assert a[i] == b[i] && short[i] in short && long[i] in long;
    }
    forall x | x in long ensures x in short {
      var i :| 0 <= i < |long| && long[i] == x;
      assert b[i] in b;
      var j :| 0 <= j < |a| && a[j] == b[i];
      assert short[j] in short && long[i] in long;
    }
  }

  lemma RootWidth(H: string -> string, hashes: seq<string>)
    requires FixedWidth(H) && HashWidth(hashes)
    ensures Root(H, hashes) == "" <==> hashes == []
  {
    if hashes != [] {
      TreeOfFacts(H, hashes);
      FoldLeafWidth(Leaves(hashes));
      ValueWidth(H, TreeOf(hashes));
    }
  }

  /** Files with their contents, as both the export and the check see them. */
  ghost predicate Listing(H: string -> string, files: seq<FileInfo>, parts: seq<string>) {
    |files| == |parts| && forall i :: 0 <= i < |files| ==> files[i].checksum == H(parts[i])
  }

  lemma HeldListing(H: string -> string, dir: map<string, string>, files: seq<FileInfo>)
    requires AllFilesCheck(H, dir, files)
    ensures Listing(H, files, Contents(dir, files))
  {
  }

  lemma EmptyTogether(H: string -> string, files: seq<FileInfo>, claimed: seq<FileInfo>)
    requires FixedWidth(H) && HashWidth(Checksums(files)) && HashWidth(Checksums(claimed))
    requires Root(H, Checksums(files)) == Root(H, Checksums(claimed))
    ensures files == [] <==> claimed == []
  {
    RootWidth(H, Checksums(files));
    RootWidth(H, Checksums(claimed));
  }

  lemma CountDecides(H: string -> string, files: seq<FileInfo>, claimed: seq<FileInfo>, parts: seq<string>, held: seq<string>)
    requires FixedWidth(H) && Listing(H, files, parts) && Listing(H, claimed, held)
    requires Depth(|files|) == Depth(|claimed|) && forall i :: 0 <= i < |parts| ==> parts[i] != ""
    requires Root(H, Checksums(files)) == Root(H, Checksums(claimed))
    requires CollisionFree(H, Hashed(H, parts, Checksums(files)) + Hashed(H, held, Checksums(claimed)))
    ensures Concat(held) == Concat(parts) <==> |claimed| == |files|
  {
    var a, b := Checksums(files), Checksums(claimed);
    EmptyTogether(H, files, claimed);
    if files == [] {
    } else if |claimed| < |files| {
      assert Hashed(H, held, b) + Hashed(H, parts, a) == Hashed(H, parts, a) + Hashed(H, held, b);
      SharedRootContents(H, b, a, held, parts);
      LongerConcat(held, parts);
    } else {
      SharedRootContents(H, a, b, parts, held);
      if |claimed| == |files| {
        assert held[..|parts|] == held;
      } else {
        forall i | 0 <= i < |held| ensures held[i] != "" {
          assert held[i] in parts;
        }
        LongerConcat(parts, held);
      }
    }
  }

  // ---------------------------------------------------------------- when the depth is free too

  /** In the listing whose fold is shallower, every file holds two joined checksums. */
  lemma ShallowerPairs(H: string -> string, files: seq<FileInfo>, parts: seq<string>, deeper: seq<FileInfo>, held: seq<string>)
    requires FixedWidth(H) && Listing(H, files, parts) && Listing(H, deeper, held)
    requires files != [] && deeper != [] && Depth(|files|) < Depth(|deeper|)
    requires Root(H, Checksums(files)) == Root(H, Checksums(deeper))
    requires CollisionFree(H, Hashed(H, parts, Checksums(files)) + Hashed(H, held, Checksums(deeper)))
    ensures forall i :: 0 <= i < |parts| ==> |parts[i]| == 2 * WIDTH
  {
    var a, b := Checksums(files), Checksums(deeper);
    ShallowerHashesPairs(H, a, b);
    forall i | 0 <= i < |parts| ensures |parts[i]| == 2 * WIDTH {
      assert a[i] in a && parts[i] in parts;
      var v :| v in RootInputs(H, b) && |v| == 2 * WIDTH && a[i] == H(v);
      assert H(parts[i]) == H(v);
    }
  }

  lemma {:induction false} EqualLengths(parts: seq<string>, n: nat)
    requires forall i :: 0 <= i < |parts| ==> |parts[i]| == n
    ensures |Concat(parts)| == n * |parts|
  {
    if parts == [] {
    } else {
      EqualLengths(parts[1..], n);
      assert n * |parts| == n + n * (|parts| - 1);
    }
  }

  /** A listing shallower than the export's is too short to hold its bytes. */
  lemma ShallowerIsShorter(data: string, held: seq<string>)
    requires held != [] && Depth(|held|) < Depth(|Cut(data)|)
    requires forall i :: 0 <= i < |held| ==> |held[i]| == 2 * WIDTH
    ensures |held| < |Cut(data)| && |Concat(held)| < |data|
  {
    ShallowerIsFewer(|held|, |Cut(data)|);
    EqualLengths(held, 2 * WIDTH);
    ManyChunksAreLong(data, |held|);
  }

  lemma ManyChunksAreLong(data: string, n: nat)
    requires 1 <= n < |Cut(data)|
    ensures 2 * WIDTH * n < |data|
  {
    ChunkSizes(data);
  }

  lemma ShallowerIsFewer(n: nat, m: nat)
    requires 1 <= n && 1 <= m && Depth(n) < Depth(m)
    ensures n < m
  {
    DepthIsCeilLog2(n);
    DepthIsCeilLog2(m);
    PowersGrow(Depth(n), Depth(m) - 1);
  }

  lemma {:induction false} PowersGrow(j: nat, k: nat)
    requires j <= k
    ensures Pow2(j) <= Pow2(k)
    decreases k
  {
    if j == k {
    } else {
      PowersGrow(j, k - 1);
    }
  }

  /** An export whose chunks are all two joined checksums is itself no longer than that. */
  lemma PairChunksAreOne(data: string)
    requires data != "" && forall i :: 0 <= i < |Cut(data)| ==> |Cut(data)[i]| == 2 * WIDTH
    ensures |data| == 2 * WIDTH
  {
    ChunkSizes(data);
    EqualLengths(Cut(data), 2 * WIDTH);
    ChunksReassemble(data);
  }

  /** Listings of any length, but no deeper one than the original's for an export as long as two checksums. */
  ghost predicate DepthJudged(data: string, claimed: nat, original: nat) {
    |data| == 2 * WIDTH ==> Depth(claimed) <= Depth(original)
  }

  /** The files the check looked at hold exactly the exported bytes. */
  ghost predicate Restores(held: seq<string>, data: string) {
    Concat(held) == data
  }

  /** `CountDecides` for an export, with the depth of the claimed listing free. */
  lemma CountDecidesExport(H: string -> string, files: seq<FileInfo>, claimed: seq<FileInfo>, data: string, held: seq<string>)
    requires FixedWidth(H) && Listing(H, files, Cut(data)) && Listing(H, claimed, held)
    requires DepthJudged(data, |claimed|, |files|)
    requires Root(H, Checksums(files)) == Root(H, Checksums(claimed))
    requires CollisionFree(H, Hashed(H, Cut(data), Checksums(files)) + Hashed(H, held, Checksums(claimed)))
    ensures Restores(held, data) <==> |claimed| == |files|
  {
    EmptyTogether(H, files, claimed);
    ChunksReassemble(data);
    if Depth(|claimed|) == Depth(|files|) {
      NonemptyParts(data);
      CountDecides(H, files, claimed, Cut(data), held);
    } else if Depth(|claimed|) < Depth(|files|) {
      assert Hashed(H, held, Checksums(claimed)) + Hashed(H, Cut(data), Checksums(files))
          == Hashed(H, Cut(data), Checksums(files)) + Hashed(H, held, Checksums(claimed));
      ShallowerPairs(H, claimed, held, files, Cut(data));
      ShallowerIsShorter(data, held);
    } else {
      ShallowerPairs(H, files, Cut(data), claimed, held);
      PairChunksAreOne(data);
    }
  }

  /**
   Without the fixed number of files: files that pass both checks against the original root
   concatenate to the exported bytes if and only if there are as many of them as in the original.
   The one exception the theorem makes is an export that is itself as long as two checksums, against
   which a deeper listing is not judged (`PairExportCanSplit`).
   */
  lemma CountBindsExactly(H: string -> string, jobId: string, naming: nat -> Location, data: string,
                          original: Manifest, m: Manifest, dir: map<string, string>)
    requires FixedWidth(H)
    requires original == MakeManifest(H, jobId, Infos(H, naming, Cut(data)))
    requires m.merkleRoot == original.merkleRoot
    requires DepthJudged(data, |m.files|, |original.files|)
    requires MerkleCheck(H, m) && AllFilesCheck(H, dir, m.files)
    requires CollisionFree(H, Hashed(H, Cut(data), Checksums(original.files))
                              + Hashed(H, Contents(dir, m.files), Checksums(m.files)))
    ensures Restores(Contents(dir, m.files), data) <==> |m.files| == |original.files|
  {
    SameRoots(H, jobId, Infos(H, naming, Cut(data)), m);
    CountBindsFiles(H, naming, data, m.files, dir);
  }

  /** A check against the original manifest's root compares the two folds. */
  lemma SameRoots(H: string -> string, jobId: string, files: seq<FileInfo>, m: Manifest)
    requires m.merkleRoot == MakeManifest(H, jobId, files).merkleRoot && MerkleCheck(H, m)
    ensures Root(H, Checksums(files)) == Root(H, Checksums(m.files))
  {
    OwnRootChecks(H, jobId, files);
  }

  lemma CountBindsFiles(H: string -> string, naming: nat -> Location, data: string, claimed: seq<FileInfo>,
                        dir: map<string, string>)
    requires FixedWidth(H) && AllFilesCheck(H, dir, claimed)
    requires DepthJudged(data, |claimed|, |Cut(data)|)
    requires Root(H, Checksums(Infos(H, naming, Cut(data)))) == Root(H, Checksums(claimed))
    requires CollisionFree(H, Hashed(H, Cut(data), Checksums(Infos(H, naming, Cut(data))))
                              + Hashed(H, Contents(dir, claimed), Checksums(claimed)))
    ensures Restores(Contents(dir, claimed), data) <==> |claimed| == |Cut(data)|
  {
    OwnListing(H, naming, Cut(data));
    HeldListing(H, dir, claimed);
    CountDecidesExport(H, Infos(H, naming, Cut(data)), claimed, data, Contents(dir, claimed));
  }

  lemma OwnListing(H: string -> string, naming: nat -> Location, parts: seq<string>)
    ensures Listing(H, Infos(H, naming, parts), parts)
  {
  }

  /** An input of another depth: for two chunks, one file that holds their two checksums passes too. */
  lemma TwoChecksumsPass(H: string -> string, jobId: string, naming: nat -> Location, data: string, name: string)
    requires |Cut(data)| == 2
    ensures var original := MakeManifest(H, jobId, Infos(H, naming, Cut(data)));
            var pair := H(Cut(data)[0]) + H(Cut(data)[1]);
            var m := original.(files := [FileInfo(name, "", |pair|, H(pair), 0, 0, 0)]);
            && MerkleCheck(H, m) && AllFilesCheck(H, map[name := pair], m.files)
            && Contents(map[name := pair], m.files) == [pair]
  {
    var files := Infos(H, naming, Cut(data));
    var pair := H(Cut(data)[0]) + H(Cut(data)[1]);
    var one := [FileInfo(name, "", |pair|, H(pair), 0, 0, 0)];
    OwnRootChecks(H, jobId, files);
    assert Checksums(files) == [H(Cut(data)[0]), H(Cut(data)[1])];
    assert Checksums(one) == [H(pair)];
    RootOfTwo(H, H(Cut(data)[0]), H(Cut(data)[1]));
  }

  function Halves(H: string -> string, x: string, y: string): seq<FileInfo> {
    [FileInfo("x", "", |x|, H(x), 0, 0, 0), FileInfo("y", "", |y|, H(y), 1, 0, 0)]
  }

  function HalvesDir(x: string, y: string): map<string, string> {
    map["x" := x, "y" := y]
  }

  lemma HalvesPass(H: string -> string, x: string, y: string)
    ensures AllFilesCheck(H, HalvesDir(x, y), Halves(H, x, y))
    ensures Restores(Contents(HalvesDir(x, y), Halves(H, x, y)), x + y)
  {
    assert "x"[0] != "y"[0];
    assert Contents(HalvesDir(x, y), Halves(H, x, y)) == [x, y];
    assert [x, y][1..] == [y] && [y][1..] == [] && y + "" == y;
    assert Concat([y]) == y && Concat([x, y]) == x + y;
  }

  lemma HalvesRoot(H: string -> string, naming: nat -> Location, x: string, y: string)
    requires |x + y| == 2 * WIDTH && H(x) + H(y) == x + y
    ensures |Cut(x + y)| == 1
    ensures Root(H, Checksums(Halves(H, x, y))) == Root(H, Checksums(Infos(H, naming, Cut(x + y))))
  {
    var data := x + y;
    assert Cut(data) == [data];
    assert Checksums(Infos(H, naming, Cut(data))) == [H(data)];
    assert Checksums(Halves(H, x, y)) == [H(x), H(y)];
    RootOfTwo(H, H(x), H(y));
  }

  /**
   Why an export as long as two checksums is set apart: if the two checksums of its halves happen
   to spell the export again, listing the halves passes both checks and still restores it.
   */
  lemma PairExportCanSplit(H: string -> string, jobId: string, naming: nat -> Location, x: string, y: string)
    requires |x + y| == 2 * WIDTH && H(x) + H(y) == x + y
    ensures var original := MakeManifest(H, jobId, Infos(H, naming, Cut(x + y)));
            && MerkleCheck(H, original.(files := Halves(H, x, y))) && |original.files| == 1
    ensures AllFilesCheck(H, HalvesDir(x, y), Halves(H, x, y))
    ensures Restores(Contents(HalvesDir(x, y), Halves(H, x, y)), x + y)
  {
    OwnRootChecks(H, jobId, Infos(H, naming, Cut(x + y)));
    HalvesRoot(H, naming, x, y);
    HalvesPass(H, x, y);
  }

  lemma RootOfTwo(H: string -> string, a: string, b: string)
    ensures Root(H, [a, b]) == H(a + b) && Root(H, [H(a + b)]) == H(a + b) && Root(H, []) == ""
  {
    assert [a, b][2..] == [];
    assert HashPair(H)(a, b) == H(a + b);
    assert NextLevel(HashPair(H), [a, b]) == [H(a + b)];
    assert Fold(HashPair(H), [H(a + b)]) == H(a + b);
    assert Fold(HashPair(H), [a, b]) == H(a + b);
  }

  lemma NonemptyParts(data: string)
    ensures forall i :: 0 <= i < |Cut(data)| ==> Cut(data)[i] != ""
  {
    ChunkSizes(data);
  }

  /** A file of the list with the given checksum. */
  ghost function FileWith(files: seq<FileInfo>, hash: string): (f: FileInfo)
    requires hash in Checksums(files)
    ensures f in files && f.checksum == hash
  {
    var i :| 0 <= i < |files| && Checksums(files)[i] == hash;
    files[i]
  }

  ghost function FilesWith(files: seq<FileInfo>, hashes: seq<string>): seq<FileInfo>
    requires DrawnFrom(hashes, Checksums(files))
  {
    seq(|hashes|, i requires 0 <= i < |hashes| => FileWith(files, hashes[i]))
  }

  /** A longer list of the same depth and root that passes the file check too. */
  ghost predicate PassesLonger(H: string -> string, dir: map<string, string>, files: seq<FileInfo>, longer: seq<FileInfo>) {
    && |longer| > |files| && Depth(|longer|) == Depth(|files|)
    && Root(H, Checksums(longer)) == Root(H, Checksums(files)) && AllFilesCheck(H, dir, longer)
  }

  lemma PadListing(H: string -> string, dir: map<string, string>, files: seq<FileInfo>) returns (longer: seq<FileInfo>)
    requires files != [] && AllFilesCheck(H, dir, files) && |files| < Pow2(Depth(|files|))
    ensures PassesLonger(H, dir, files, longer)
  {
    var full := Frontier(TreeOf(Checksums(files)));
    FullLengthKeepsRoot(H, Checksums(files));
    longer := FilesWith(files, full);
    assert Checksums(longer) == full;
  }

  /**
   A list of files that passes can be made longer with the same depth and root, whatever the hash,
   if and only if its length is not a power of two: it is padded with files it already lists.
   */
  lemma LongerListingExactly(H: string -> string, dir: map<string, string>, files: seq<FileInfo>)
    requires files != [] && AllFilesCheck(H, dir, files)
    ensures (exists longer :: PassesLonger(H, dir, files, longer)) <==> |files| < Pow2(Depth(|files|))
  {
    if |files| < Pow2(Depth(|files|)) {
      var longer := PadListing(H, dir, files);
      assert PassesLonger(H, dir, files, longer);
    }
    forall longer | PassesLonger(H, dir, files, longer) ensures |files| < Pow2(Depth(|files|)) {
      DepthIsCeilLog2(|longer|);
    }
  }
}

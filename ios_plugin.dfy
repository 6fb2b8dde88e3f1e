/**
 * The iOS `processFile` request: validation, path resolution, the copy into
 * the documents directory, the video gate, the result record, and the sweep
 * of the temporary directory that `cleanupMemory` performs.
 *
 * `Process` is the whole request as a decision on the files before it; the
 * methods at the end run the same steps against a `FileSystem` and are
 * proved to produce what `Process` and `SweepEntries` describe.
 */
module IosPlugin {
  import opened Common
  import opened Paths
  import opened Store
  import opened PluginCall
  import Decimal
  import Utf8
  import PercentEncoding

  /** The dictionary the call resolves with: "size", "type", "fileName", "byteArray". */
  datatype MediaResult = MediaResult(size: nat, fileType: string, fileName: string, byteArray: seq<byte>)

  datatype Response = Resolved(result: MediaResult) | Rejected(message: string)

  /** The video export: the compressed bytes of a video, or None when the export fails. */
  type Compressor = seq<byte> -> Option<seq<byte>>

  const FailurePrefix: string := "Error processing media file: "
  const CompressionFailed: string := "Compression failed"

  // ---------------------------------------------------------------- paths

  /** Exactly the first seven characters go, and only when they are "file://". */
  function SanitizePath(filePath: string): (s: string)
    ensures |s| <= |filePath| && s == filePath[|filePath| - |s|..]
    ensures |filePath| - |s| == (if StartsWith(filePath, FileScheme) then |FileScheme| else 0)
  {
    if StartsWith(filePath, FileScheme) then filePath[|FileScheme|..] else filePath
  }

  /** The sanitised path, percent-decoded; when decoding fails, the sanitised path as it is. */
  function DecodedPath(filePath: string): (d: string)
    ensures PercentEncoding.RemovingPercentEncoding(SanitizePath(filePath)).None? ==> d == SanitizePath(filePath)
  {
    var s := SanitizePath(filePath);
    match PercentEncoding.RemovingPercentEncoding(s)
    case Some(decoded) => decoded
    case None => s
  }

  /** A path with no "%" after sanitising is used as it is. */
  lemma {:induction false} DecodedPathWithoutPercent(filePath: string)
    requires '%' !in SanitizePath(filePath)
    ensures DecodedPath(filePath) == SanitizePath(filePath)
  {
    PercentEncoding.WithoutPercentIsUnchanged(SanitizePath(filePath));
  }

  /** A file URL whose path has every UTF-8 byte percent-encoded resolves to that path. */
  lemma {:induction false} DecodedPathOfEscapedUrl(path: string, escaped: string)
    requires Utf8.Encode(escaped) == PercentEncoding.EscapeAll(Utf8.Encode(path))
    ensures DecodedPath(FileScheme + escaped) == path
  {
    var url := FileScheme + escaped;
    assert url[..|FileScheme|] == FileScheme && url[|FileScheme|..] == escaped;
    PercentEncoding.DecodesEscapedUtf8(path, escaped);
  }

  lemma {:induction false} DecodedPathOfFileUrl()
    ensures DecodedPath("file:///tmp/clip.mov") == "/tmp/clip.mov"
  {
    var url := "file:///tmp/clip.mov";
    assert StartsWith(url, FileScheme);
    assert SanitizePath(url) == "/tmp/clip.mov";
    DecodedPathWithoutPercent(url);
  }

  // ------------------------------------------------------ persistent copy

  /** Where the copy goes: the documents directory joined with the source's last path component. */
  function PersistentPath(documents: Path, source: Path): Path
  {
    Join(documents, LastPathComponent(source))
  }

  /** The result of the copy, with the files afterwards. */
  datatype Relocation = Relocation(result: Result<Path, FsError>, files: Files)

  /** `copyToPersistentLocation` as written: delete whatever is at the destination, then copy. */
  function RelocateAsWritten(files: Files, limits: Limits, source: Path, documents: Path): Relocation
  {
    var destination := PersistentPath(documents, source);
    var cleared := if destination in files then RemoveStep(files, limits.undeletable, destination) else Step(files, None);
    if cleared.error.Some? then Relocation(Err(cleared.error.value), cleared.files)
    else
      var copied := CopyStep(cleared.files, limits.uncreatable, source, destination);
      if copied.error.Some? then Relocation(Err(copied.error.value), copied.files)
      else Relocation(Ok(destination), copied.files)
  }

  /**
   * When the source already is the destination (a file that an earlier call
   * copied into the documents directory), the delete removes the source itself,
   * the copy then finds nothing to copy, and the caller's file is gone.
   */
  lemma RelocateAsWrittenDeletesSource(files: Files, limits: Limits, source: Path, documents: Path)
    requires source in files && source !in limits.undeletable
    requires PersistentPath(documents, source) == source
    ensures RelocateAsWritten(files, limits, source, documents).result == Err(NoSuchFile(source))
    ensures source !in RelocateAsWritten(files, limits, source, documents).files
  {
  }

  lemma {:induction false} RelocateAsWrittenExample()
    ensures RelocateAsWritten(map["/docs/clip.mov" := [1, 2, 3]], Limits({}, {}, {}, {}), "/docs/clip.mov", "/docs")
         == Relocation(Err(NoSuchFile("/docs/clip.mov")), map[])
  {
    LastPathComponentOfJoin("/docs", "clip.mov");
    assert Join("/docs", "clip.mov") == "/docs/clip.mov";
    assert map["/docs/clip.mov" := [1, 2, 3]] - {"/docs/clip.mov"} == map[];
  }

  /** The copy, except that a source already at the destination is left where it is. */
  function Relocate(files: Files, limits: Limits, source: Path, documents: Path): Relocation
  {
    var destination := PersistentPath(documents, source);
    if destination == source && source in files then Relocation(Ok(destination), files)
    else RelocateAsWritten(files, limits, source, documents)
  }

  /** `removeItem` refuses to delete the earlier file at the destination. */
  predicate DeleteRefused(files: Files, limits: Limits, destination: Path)
  {
    destination in files && destination in limits.undeletable
  }

  /** The copy of an existing source succeeds: it already is the destination, or the destination can be cleared and created. */
  predicate CanRelocate(files: Files, limits: Limits, source: Path, documents: Path)
  {
    var destination := PersistentPath(documents, source);
    destination == source || (!DeleteRefused(files, limits, destination) && destination !in limits.uncreatable)
  }

  /**
   * For an existing source: the copy succeeds exactly when `CanRelocate`
   * says; on success the destination holds exactly the source's bytes and no
   * other entry changes; on failure the source is kept, and an earlier file at
   * the destination is gone unless it was the delete that was refused.
   */
  lemma {:induction false} RelocateEffect(files: Files, limits: Limits, source: Path, documents: Path)
    requires source in files
    ensures var r := Relocate(files, limits, source, documents);
            var destination := PersistentPath(documents, source);
            (r.result.Ok? <==> CanRelocate(files, limits, source, documents))
            && (r.result.Ok? ==> r.result.value == destination && r.files == files[destination := files[source]])
            && (r.result.Err? ==>
                  r.result == Err(PermissionDenied(destination))
                  && r.files == if DeleteRefused(files, limits, destination) then files else files - {destination})
  {
    var destination := PersistentPath(documents, source);
    var r := Relocate(files, limits, source, documents);
    if destination == source {
      assert files[destination := files[source]] == files;
    } else if DeleteRefused(files, limits, destination) {
      assert r == Relocation(Err(PermissionDenied(destination)), files);
    } else {
      var cleared := files - {destination};
      assert destination in files ==> RemoveStep(files, limits.undeletable, destination) == Step(cleared, None);
      assert destination !in files ==> cleared == files;
      assert source in cleared && destination !in cleared;
      if destination in limits.uncreatable {
        assert r == Relocation(Err(PermissionDenied(destination)), cleared);
      } else {
        assert cleared[destination := files[source]] == files[destination := files[source]];
        assert r == Relocation(Ok(destination), cleared[destination := files[source]]);
      }
    }
  }

  /** The caller's file survives the copy, whatever its outcome. */
  lemma {:induction false} RelocateKeepsSource(files: Files, limits: Limits, source: Path, documents: Path)
    requires source in files
    ensures var r := Relocate(files, limits, source, documents);
            source in r.files && r.files[source] == files[source]
  {
    RelocateEffect(files, limits, source, documents);
  }

  // ----------------------------------------------------- video gate, result

  function LowerAscii(c: char): char
  {
    if 'A' <= c <= 'Z' then (c as int + 32) as char else c
  }

  /** `lowercased()`, on the characters that matter for the comparison below. */
  function Lowercased(s: string): (t: string)
    ensures |t| == |s| && forall i :: 0 <= i < |s| ==> t[i] == LowerAscii(s[i])
  {
    if s == [] then [] else [LowerAscii(s[0])] + Lowercased(s[1..])
  }

  /** The gate: the lower-cased type is "mp4" or "mov". */
  predicate IsVideoType(fileType: string)
  {
    Lowercased(fileType) == "mp4" || Lowercased(fileType) == "mov"
  }

  /** The types the gate sends to the compressor, spelled out: m, then p 4 or o v, in either case. */
  lemma {:induction false} VideoTypeSpellings(fileType: string)
    ensures IsVideoType(fileType) <==>
      |fileType| == 3 && fileType[0] in "mM"
      && ((fileType[1] in "pP" && fileType[2] == '4') || (fileType[1] in "oO" && fileType[2] in "vV"))
  {
    var t := Lowercased(fileType);
    if |fileType| == 3 {
      assert t == [LowerAscii(fileType[0]), LowerAscii(fileType[1]), LowerAscii(fileType[2])];
    }
  }

  /** `"\(prefix)_\(timestamp).\(fileType)"`. */
  function FileName(prefix: string, timestamp: int, fileType: string): string
  {
    prefix + "_" + Decimal.IntToString(timestamp) + "." + fileType
  }

  /** The name is the prefix, "_", the decimal timestamp, ".", the type; the timestamp can be read back. */
  lemma {:induction false} FileNameParts(prefix: string, timestamp: int, fileType: string)
    ensures var f := FileName(prefix, timestamp, fileType);
            var stamp := Decimal.IntToString(timestamp);
            |f| == |prefix| + |stamp| + |fileType| + 2
            && f[..|prefix|] == prefix && f[|prefix|] == '_'
            && f[|prefix| + 1..|f| - |fileType| - 1] == stamp
            && Decimal.ParseInt(f[|prefix| + 1..|f| - |fileType| - 1]) == Some(timestamp)
            && f[|f| - |fileType| - 1] == '.' && f[|f| - |fileType|..] == fileType
  {
    var f := FileName(prefix, timestamp, fileType);
    var stamp := Decimal.IntToString(timestamp);
    assert f == prefix + "_" + stamp + "." + fileType;
    assert f[|prefix| + 1..|f| - |fileType| - 1] == stamp;
    Decimal.IntRoundTrip(timestamp);
  }

  /** Two calls with the same prefix and type get the same name exactly when their timestamps are equal. */
  lemma {:induction false} FileNameCollision(prefix: string, a: int, b: int, fileType: string)
    ensures FileName(prefix, a, fileType) == FileName(prefix, b, fileType) <==> a == b
  {
    var sa, sb := Decimal.IntToString(a), Decimal.IntToString(b);
    var fa, fb := FileName(prefix, a, fileType), FileName(prefix, b, fileType);
    if fa == fb {
      var start := |prefix| + 1;
      assert fa == prefix + "_" + sa + "." + fileType;
      assert fb == prefix + "_" + sb + "." + fileType;
      assert |sa| == |sb|;
      assert fa[start..start + |sa|] == sa;
      assert fb[start..start + |sb|] == sb;
      Decimal.IntToStringInjective(a, b);
    }
  }

  /**
   * `processFileInBackground`: the bytes are the compressor's output for a
   * video type (its failure, or a video it cannot read, is the "Compression
   * failed" error, never the uncompressed bytes), the persistent file's bytes
   * otherwise, or the read's error.
   */
  function ProcessInBackground(files: Files, unreadable: set<Path>, persistent: Path, fileType: string, prefix: string,
                               timestamp: int, compress: Compressor): (r: Result<MediaResult, string>)
    ensures r.Ok? ==> r.value.size == |r.value.byteArray| && r.value.fileType == fileType
                      && r.value.fileName == FileName(prefix, timestamp, fileType)
  {
    var data :=
      if IsVideoType(fileType) then
        match ReadStep(files, unreadable, persistent)
        case Ok(source) => if compress(source).Some? then Ok(compress(source).value) else Err(CompressionFailed)
        case Err(_) => Err(CompressionFailed)
      else
        match ReadStep(files, unreadable, persistent)
        case Ok(bytes) => Ok(bytes)
        case Err(e) => Err(e.Description());
    match data
    case Err(message) => Err(message)
    case Ok(bytes) => Ok(MediaResult(|bytes|, fileType, FileName(prefix, timestamp, fileType), bytes))
  }

  // ------------------------------------------------------ the whole request

  /** What a call leads to: the response, the files afterwards, and whether cleanup runs. */
  datatype Run = Run(response: Response, files: Files, cleanup: bool)

  /** The whole call, with the corrected relocation `Relocate` in place of `RelocateAsWritten`. */
  function Process(files: Files, limits: Limits, call: Call, documents: Path,
                   timestamp: int, compress: Compressor): Run
  {
    if !HasAllOptions(call) then Run(Rejected(RequiredMessage), files, false)
    else
      var path := DecodedPath(call.filePath.value);
      if path !in files then Run(Rejected(NotFoundPrefix + path), files, false)
      else Continue(files, limits, path, call.fileType.value, call.name.value, documents, timestamp, compress)
  }

  /** The request once the file is known to exist: the copy, then the background work; cleanup always follows. */
  function Continue(files: Files, limits: Limits, path: Path, fileType: string, prefix: string,
                    documents: Path, timestamp: int, compress: Compressor): (run: Run)
    ensures run.cleanup
    ensures run.response.Rejected? ==> StartsWith(run.response.message, FailurePrefix)
  {
    var moved := Relocate(files, limits, path, documents);
    match moved.result
    case Err(e) =>
      var message := FailurePrefix + e.Description();
      assert message[..|FailurePrefix|] == FailurePrefix;
      Run(Rejected(message), moved.files, true)
    case Ok(persistent) =>
      match ProcessInBackground(moved.files, limits.unreadable, persistent, fileType, prefix, timestamp, compress)
      case Err(m) =>
        var message := FailurePrefix + m;
        assert message[..|FailurePrefix|] == FailurePrefix;
        Run(Rejected(message), moved.files, true)
      case Ok(result) => Run(Resolved(result), moved.files, true)
  }

  /** A call without all three options is rejected before anything else happens. */
  lemma MissingOptionRejected(files: Files, limits: Limits, call: Call, documents: Path,
                              timestamp: int, compress: Compressor)
    requires !HasAllOptions(call)
    ensures Process(files, limits, call, documents, timestamp, compress) == Run(Rejected(RequiredMessage), files, false)
  {
  }

  /** A path that does not resolve to a file is rejected with that path; nothing is copied and no cleanup runs. */
  lemma MissingFileRejected(files: Files, limits: Limits, call: Call, documents: Path,
                            timestamp: int, compress: Compressor)
    requires HasAllOptions(call) && DecodedPath(call.filePath.value) !in files
    ensures Process(files, limits, call, documents, timestamp, compress)
         == Run(Rejected(NotFoundPrefix + DecodedPath(call.filePath.value)), files, false)
  {
  }

  /** Cleanup runs exactly for the calls that get past the existence check, whatever happens after it. */
  lemma CleanupAfterExistenceCheck(files: Files, limits: Limits, call: Call, documents: Path,
                                   timestamp: int, compress: Compressor)
    ensures Process(files, limits, call, documents, timestamp, compress).cleanup
        <==> HasAllOptions(call) && DecodedPath(call.filePath.value) in files
  {
  }

  /** Every rejection after the existence check carries the "Error processing media file: " prefix. */
  lemma LaterFailuresArePrefixed(files: Files, limits: Limits, call: Call, documents: Path,
                                 timestamp: int, compress: Compressor)
    ensures var run := Process(files, limits, call, documents, timestamp, compress);
            run.cleanup && run.response.Rejected? ==> StartsWith(run.response.message, FailurePrefix)
  {
  }

  /** A resolved call: the size is the byte count, the type is the caller's, the name is built from the caller's prefix and type. */
  lemma ResolvedShape(files: Files, limits: Limits, call: Call, documents: Path,
                      timestamp: int, compress: Compressor)
    ensures var run := Process(files, limits, call, documents, timestamp, compress);
            run.response.Resolved? ==>
              var r := run.response.result;
              HasAllOptions(call) && r.size == |r.byteArray| && r.fileType == call.fileType.value
              && r.fileName == FileName(call.name.value, timestamp, call.fileType.value)
  {
  }

  /** A readable non-video file is returned byte for byte, with its exact size, and copied to its persistent path. */
  lemma {:induction false} PassthroughFidelity(files: Files, limits: Limits, call: Call, documents: Path,
                            timestamp: int, compress: Compressor)
    requires HasAllOptions(call) && !IsVideoType(call.fileType.value)
    requires DecodedPath(call.filePath.value) in files
    requires CanRelocate(files, limits, DecodedPath(call.filePath.value), documents)
    requires PersistentPath(documents, DecodedPath(call.filePath.value)) !in limits.unreadable
    ensures var path := DecodedPath(call.filePath.value);
            var bytes := files[path];
            Process(files, limits, call, documents, timestamp, compress)
            == Run(Resolved(MediaResult(|bytes|, call.fileType.value,
                                        FileName(call.name.value, timestamp, call.fileType.value), bytes)),
                   files[PersistentPath(documents, path) := bytes], true)
  {
    RelocateEffect(files, limits, DecodedPath(call.filePath.value), documents);
  }

  /** A non-video copy that cannot be read is rejected with the read's error; the copy stays and cleanup runs. */
  lemma {:induction false} UnreadableCopyRejected(files: Files, limits: Limits, call: Call, documents: Path,
                               timestamp: int, compress: Compressor)
    requires HasAllOptions(call) && !IsVideoType(call.fileType.value)
    requires DecodedPath(call.filePath.value) in files
    requires CanRelocate(files, limits, DecodedPath(call.filePath.value), documents)
    requires PersistentPath(documents, DecodedPath(call.filePath.value)) in limits.unreadable
    ensures var path := DecodedPath(call.filePath.value);
            var persistent := PersistentPath(documents, path);
            Process(files, limits, call, documents, timestamp, compress)
            == Run(Rejected(FailurePrefix + Unreadable(persistent).Description()), files[persistent := files[path]], true)
  {
    RelocateEffect(files, limits, DecodedPath(call.filePath.value), documents);
  }

  /**
   * A readable video is always sent to the compressor: its output is the
   * result, its failure the rejection; a video that cannot be read fails as
   * the compression does.
   */
  lemma {:induction false} VideoIsCompressed(files: Files, limits: Limits, call: Call, documents: Path,
                          timestamp: int, compress: Compressor)
    requires HasAllOptions(call) && IsVideoType(call.fileType.value)
    requires DecodedPath(call.filePath.value) in files
    requires CanRelocate(files, limits, DecodedPath(call.filePath.value), documents)
    ensures var path := DecodedPath(call.filePath.value);
            var out := if PersistentPath(documents, path) in limits.unreadable then None else compress(files[path]);
            Process(files, limits, call, documents, timestamp, compress).response
            == if out.Some? then
                 Resolved(MediaResult(|out.value|, call.fileType.value,
                                      FileName(call.name.value, timestamp, call.fileType.value), out.value))
               else Rejected(FailurePrefix + CompressionFailed)
  {
    RelocateEffect(files, limits, DecodedPath(call.filePath.value), documents);
  }

  /**
   * A refused copy is reported with the error's description. The caller's
   * file stays; an earlier file at the destination is lost when its delete
   * succeeded and the copy then failed.
   */
  lemma {:induction false} CopyFailureRejected(files: Files, limits: Limits, call: Call, documents: Path,
                            timestamp: int, compress: Compressor)
    requires HasAllOptions(call) && DecodedPath(call.filePath.value) in files
    requires !CanRelocate(files, limits, DecodedPath(call.filePath.value), documents)
    ensures var destination := PersistentPath(documents, DecodedPath(call.filePath.value));
            Process(files, limits, call, documents, timestamp, compress)
            == Run(Rejected(FailurePrefix + PermissionDenied(destination).Description()),
                   if DeleteRefused(files, limits, destination) then files else files - {destination}, true)
  {
    RelocateEffect(files, limits, DecodedPath(call.filePath.value), documents);
  }

  /** The only entry a call may change is the persistent copy; the caller's file keeps its bytes. */
  lemma {:induction false} ProcessChangesOnlyTheCopy(files: Files, limits: Limits, call: Call, documents: Path,
                                  timestamp: int, compress: Compressor)
    ensures var run := Process(files, limits, call, documents, timestamp, compress);
            (forall p :: p in files && (!HasAllOptions(call) || p != PersistentPath(documents, DecodedPath(call.filePath.value)))
                 ==> p in run.files && run.files[p] == files[p])
            && (forall p :: p in run.files && p !in files ==> HasAllOptions(call) && p == PersistentPath(documents, DecodedPath(call.filePath.value)))
            && ((HasAllOptions(call) && DecodedPath(call.filePath.value) in files)
                 ==> run.files[DecodedPath(call.filePath.value)] == files[DecodedPath(call.filePath.value)])
  {
    if HasAllOptions(call) && DecodedPath(call.filePath.value) in files {
      var path := DecodedPath(call.filePath.value);
      RelocateEffect(files, limits, path, documents);
      var moved := Relocate(files, limits, path, documents);
      var run := Continue(files, limits, path, call.fileType.value, call.name.value, documents, timestamp, compress);
      assert run.files == moved.files;
    }
  }

  // ------------------------------------------------------------ the sweep

  /** What the sweep did: the files afterwards, how many deletions succeeded, and the error that stopped it. */
  datatype Sweep = Sweep(files: Files, removed: nat, failure: Option<FsError>)

  /** The `for file in tempFiles { try removeItem(at: file) }` loop: delete in order, stop at the first error. */
  function SweepEntries(files: Files, undeletable: set<Path>, listing: seq<Path>): (s: Sweep)
    ensures s.removed <= |listing|
    decreases |listing|
  {
    if listing == [] then Sweep(files, 0, None)
    else
      var step := RemoveStep(files, undeletable, listing[0]);
      if step.error.Some? then Sweep(files, 0, step.error)
      else
        var rest := SweepEntries(step.files, undeletable, listing[1..]);
        Sweep(rest.files, rest.removed + 1, rest.failure)
  }

  /**
   * Over a listing of existing, distinct entries: the entries before the
   * first undeletable one are deleted, that one stops the sweep with its error,
   * and it and every later entry stay in place.
   */
  lemma {:induction false} SweepEffect(files: Files, undeletable: set<Path>, listing: seq<Path>)
    requires Distinct(listing) && Elements(listing) <= files.Keys
    ensures var s := SweepEntries(files, undeletable, listing);
            s.files == files - Elements(listing[..s.removed])
            && (forall i :: 0 <= i < s.removed ==> listing[i] !in undeletable)
            && (s.failure.None? <==> s.removed == |listing|)
            && (s.failure.Some? ==> listing[s.removed] in undeletable
                                    && s.failure == Some(PermissionDenied(listing[s.removed])))
    decreases |listing|
  {
    if listing != [] {
      var p := listing[0];
      if p !in undeletable {
        var tail := listing[1..];
        assert Distinct(tail);
        assert p !in tail;
        assert Elements(tail) <= (files - {p}).Keys;
        SweepEffect(files - {p}, undeletable, tail);
        var s := SweepEntries(files - {p}, undeletable, tail);
        assert listing[..s.removed + 1] == [p] + tail[..s.removed];
        assert Elements(listing[..s.removed + 1]) == {p} + Elements(tail[..s.removed]);
      } else {
        assert listing[..0] == [];
        assert files - Elements(listing[..0]) == files;
      }
    }
  }

  /** A sweep of the whole temporary directory that meets no undeletable entry leaves it empty and touches nothing else. */
  lemma {:induction false} SweepEmptiesDirectory(files: Files, undeletable: set<Path>, dir: Path, listing: seq<Path>)
    requires Distinct(listing) && Elements(listing) == Entries(files, dir)
    ensures var s := SweepEntries(files, undeletable, listing);
            (s.failure.None? <==> forall p :: p in Entries(files, dir) ==> p !in undeletable)
            && (s.failure.None? ==> Entries(s.files, dir) == {})
            && (forall p :: p in files && !InDirectory(p, dir) ==> p in s.files && s.files[p] == files[p])
  {
    SweepEffect(files, undeletable, listing);
    var s := SweepEntries(files, undeletable, listing);
    if s.failure.None? {
      assert listing[..s.removed] == listing;
    } else {
      assert listing[s.removed] in Entries(files, dir);
    }
    assert Elements(listing[..s.removed]) <= Elements(listing) by {
      forall p | p in Elements(listing[..s.removed]) ensures p in Elements(listing) {
        var i :| 0 <= i < s.removed && listing[..s.removed][i] == p;
        assert listing[i] == p;
      }
    }
  }

  /**
   * All of `cleanupMemory`'s effect on the files, given the listing the
   * platform returned: a temporary directory that cannot be listed is left as
   * it is, with the listing's error; otherwise the listed entries are swept.
   */
  function Cleanup(files: Files, limits: Limits, tempDirectory: Path, listing: seq<Path>): (s: Sweep)
    ensures tempDirectory in limits.unlistable ==> s.files == files && s.removed == 0 && s.failure.Some?
  {
    if tempDirectory in limits.unlistable then Sweep(files, 0, Some(Unreadable(tempDirectory)))
    else SweepEntries(files, limits.undeletable, listing)
  }

  /**
   * The sweep that follows a resolved call leaves the persistent copy, with
   * the caller's bytes, in place when the documents directory is not the
   * temporary directory.
   */
  lemma {:induction false} PersistentCopySurvivesCleanup(files: Files, limits: Limits, call: Call, documents: Path,
                                                         tempDirectory: Path, timestamp: int, compress: Compressor,
                                                         tempFiles: seq<Path>)
    requires HasAllOptions(call) && DecodedPath(call.filePath.value) in files
    requires IsName(LastPathComponent(DecodedPath(call.filePath.value))) && documents != tempDirectory
    requires Process(files, limits, call, documents, timestamp, compress).response.Resolved?
    requires var run := Process(files, limits, call, documents, timestamp, compress);
             tempDirectory !in limits.unlistable ==> Distinct(tempFiles) && Elements(tempFiles) == Entries(run.files, tempDirectory)
    ensures var run := Process(files, limits, call, documents, timestamp, compress);
            var path := DecodedPath(call.filePath.value);
            var swept := Cleanup(run.files, limits, tempDirectory, tempFiles);
            PersistentPath(documents, path) in swept.files
            && swept.files[PersistentPath(documents, path)] == files[path]
  {
    var path := DecodedPath(call.filePath.value);
    var run := Process(files, limits, call, documents, timestamp, compress);
    RelocateEffect(files, limits, path, documents);
    JoinInDirectory(documents, LastPathComponent(path), tempDirectory);
    if tempDirectory !in limits.unlistable {
      SweepEmptiesDirectory(run.files, limits.undeletable, tempDirectory, tempFiles);
    }
  }

  // ------------------------------------------------------------- methods

  /** `copyToPersistentLocation`, with a source already at its destination left in place. */
  method CopyToPersistentLocation(fs: FileSystem, tempPath: Path, documents: Path) returns (r: Result<Path, FsError>)
    modifies fs
    ensures Relocation(r, fs.files) == Relocate(old(fs.files), fs.limits, tempPath, documents)
  {
    var destination := PersistentPath(documents, tempPath);
    var present := fs.FileExists(destination);
    if destination == tempPath && present {
      return Ok(destination);
    }
    if present {
      var error := fs.RemoveItem(destination);
      if error.Some? {
        return Err(error.value);
      }
    }
    var error := fs.CopyItem(tempPath, destination);
    if error.Some? {
      return Err(error.value);
    }
    return Ok(destination);
  }

  /** `processFileInBackground`: `fileData` is the compressor's output or the file's contents. */
  method ProcessFileInBackground(fs: FileSystem, fileUrl: Path, fileType: string, fileNamePrefix: string,
                                 timestamp: int, compress: Compressor) returns (r: Result<MediaResult, string>)
    ensures r == ProcessInBackground(fs.files, fs.limits.unreadable, fileUrl, fileType, fileNamePrefix, timestamp, compress)
  {
    var fileData: seq<byte>;
    if IsVideoType(fileType) {
      var source := fs.ContentsOf(fileUrl);
      var compressed := if source.Ok? then compress(source.value) else None;
      if compressed.None? {
        return Err(CompressionFailed);
      }
      fileData := compressed.value;
    } else {
      var contents := fs.ContentsOf(fileUrl);
      if contents.Err? {
        return Err(contents.error.Description());
      }
      fileData := contents.value;
    }
    var size := |fileData|;
    var finalFileName := FileName(fileNamePrefix, timestamp, fileType);
    r := Ok(MediaResult(size, fileType, finalFileName, fileData));
  }

  /** `cleanupMemory`'s sweep of the temporary directory, with the listing it worked through (none when listing failed). */
  method CleanupMemory(fs: FileSystem, tempDirectory: Path) returns (tempFiles: seq<Path>, outcome: Sweep)
    modifies fs
    ensures tempDirectory in fs.limits.unlistable ==> tempFiles == []
    ensures tempDirectory !in fs.limits.unlistable ==>
              Distinct(tempFiles) && Elements(tempFiles) == Entries(old(fs.files), tempDirectory)
    ensures outcome == Cleanup(old(fs.files), fs.limits, tempDirectory, tempFiles) && fs.files == outcome.files
  {
    var listed := fs.ContentsOfDirectory(tempDirectory);
    if listed.Err? {
      return [], Sweep(fs.files, 0, Some(listed.error));
    }
    tempFiles := listed.value;
    ghost var start := fs.files;
    var i := 0;
    while i < |tempFiles|
      invariant 0 <= i <= |tempFiles|
      invariant var rest := SweepEntries(fs.files, fs.limits.undeletable, tempFiles[i..]);
                SweepEntries(start, fs.limits.undeletable, tempFiles) == Sweep(rest.files, rest.removed + i, rest.failure)
    {
      ghost var before := fs.files;
      var error := fs.RemoveItem(tempFiles[i]);
      if error.Some? {
        outcome := Sweep(fs.files, i, error);
        return;
      }
      assert tempFiles[i..][1..] == tempFiles[i + 1..];
      i := i + 1;
    }
    outcome := Sweep(fs.files, i, None);
  }

  /**
   * `processFile`: the response is the one `Process` decides; when cleanup runs,
   * the files are what the sweep of the temporary directory leaves of the files
   * `Process` describes.
   */
  method ProcessFile(fs: FileSystem, call: Call, documents: Path, tempDirectory: Path,
                     timestamp: int, compress: Compressor)
    returns (response: Response, cleanup: Option<(seq<Path>, Sweep)>)
    modifies fs
    ensures var run := Process(old(fs.files), fs.limits, call, documents, timestamp, compress);
            response == run.response
            && (cleanup.Some? <==> run.cleanup)
            && (cleanup.None? ==> fs.files == run.files)
            && (cleanup.Some? ==>
                  var (tempFiles, outcome) := cleanup.value;
                  (tempDirectory in fs.limits.unlistable ==> tempFiles == [])
                  && (tempDirectory !in fs.limits.unlistable ==>
                        Distinct(tempFiles) && Elements(tempFiles) == Entries(run.files, tempDirectory))
                  && outcome == Cleanup(run.files, fs.limits, tempDirectory, tempFiles) && fs.files == outcome.files)
  {
    if call.filePath.None? || call.fileType.None? || call.name.None? {
      return Rejected(RequiredMessage), None;
    }
    var filePath, fileType, fileNamePrefix := call.filePath.value, call.fileType.value, call.name.value;
    var decodedPath := DecodedPath(filePath);
    var found := fs.FileExists(decodedPath);
    if !found {
      return Rejected(NotFoundPrefix + decodedPath), None;
    }
    var persistent := CopyToPersistentLocation(fs, decodedPath, documents);
    if persistent.Err? {
      response := Rejected(FailurePrefix + persistent.error.Description());
    } else {
      var result := ProcessFileInBackground(fs, persistent.value, fileType, fileNamePrefix, timestamp, compress);
      response := if result.Ok? then Resolved(result.value) else Rejected(FailurePrefix + result.error);
    }
    var tempFiles, outcome := CleanupMemory(fs, tempDirectory);
    cleanup := Some((tempFiles, outcome));
  }
}

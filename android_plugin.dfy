/**
 * The Android `processFile` handler: the option checks, the removal of
 * "file://", the existence and read checks, the result object and the mapping
 * of exceptions to rejections.
 *
 * The file system is a map from path to contents, used for `File.exists()`,
 * and the read is a parameter, `read`, that says what `readFileToByteArray`
 * gives for a path: its bytes, null, or an exception with its message.
 */
module AndroidPlugin {
  import opened Common
  import opened PluginCall
  import Store
  import Base64

  const ReadFailed: string := "Failed to read file"
  const ErrorPrefix: string := "Error processing file: "

  /** What `readFileToByteArray` gives for a file. */
  datatype ReadOutcome = Data(bytes: seq<byte>) | NullData | Thrown(message: Option<string>)

  /** The object put together for `call.resolve`. */
  datatype AndroidResult = AndroidResult(base64: string, size: nat, fileType: string, fileName: string, byteArray: seq<byte>)

  datatype Response = Resolved(result: AndroidResult) | Rejected(message: string)

  // ------------------------------------------------------- "file://" removal

  /** True when pattern occurs in s starting at index i. */
  predicate OccursAt(s: string, pattern: string, i: int)
    requires 0 <= i
  {
    i + |pattern| <= |s| && s[i..i + |pattern|] == pattern
  }

  predicate ContainsScheme(s: string)
  {
    exists i :: 0 <= i <= |s| && OccursAt(s, FileScheme, i)
  }

  /**
   * `String.replace("file://", "")`: scanning from the left, every occurrence
   * that does not overlap one already removed is dropped.
   */
  function RemoveFileScheme(s: string): (r: string)
    ensures |r| <= |s|
    decreases |s|
  {
    if s == [] then []
    else if StartsWith(s, FileScheme) then RemoveFileScheme(s[|FileScheme|..])
    else [s[0]] + RemoveFileScheme(s[1..])
  }

  /** A path without "file://" is kept as it is; one with it always gets shorter. */
  lemma {:induction false} RemoveFileSchemeShortens(s: string)
    ensures !ContainsScheme(s) ==> RemoveFileScheme(s) == s
    ensures ContainsScheme(s) ==> |RemoveFileScheme(s)| < |s|
    decreases |s|
  {
    if s != [] {
      if StartsWith(s, FileScheme) {
        assert OccursAt(s, FileScheme, 0);
        RemoveFileSchemeShortens(s[|FileScheme|..]);
      } else {
        var tail := s[1..];
        RemoveFileSchemeShortens(tail);
        if ContainsScheme(s) {
          var i :| 0 <= i <= |s| && OccursAt(s, FileScheme, i);
          assert i != 0;
          assert tail[i - 1..i - 1 + |FileScheme|] == s[i..i + |FileScheme|];
          assert OccursAt(tail, FileScheme, i - 1);
        } else {
          forall i | 0 <= i <= |tail| ensures !OccursAt(tail, FileScheme, i) {
            if OccursAt(tail, FileScheme, i) {
              assert s[i + 1..i + 1 + |FileScheme|] == tail[i..i + |FileScheme|];
              assert OccursAt(s, FileScheme, i + 1);
            }
          }
          assert [s[0]] + tail == s;
        }
      }
    }
  }

  /** The path is left unchanged exactly when it contains no "file://". */
  lemma {:induction false} RemoveFileSchemeUnchanged(s: string)
    ensures RemoveFileScheme(s) == s <==> !ContainsScheme(s)
  {
    RemoveFileSchemeShortens(s);
  }

  /** A leading "file://" and nothing else of the kind: only that prefix goes. */
  lemma {:induction false} RemoveLeadingScheme(s: string)
    requires !ContainsScheme(s)
    ensures RemoveFileScheme(FileScheme + s) == s
  {
    var url := FileScheme + s;
    assert url[..|FileScheme|] == FileScheme && url[|FileScheme|..] == s;
    RemoveFileSchemeShortens(s);
  }

  lemma {:induction false} RemoveFileSchemeCons(c: char, s: string)
    requires c != 'f' || !StartsWith([c] + s, FileScheme)
    ensures RemoveFileScheme([c] + s) == [c] + RemoveFileScheme(s)
  {
    assert ([c] + s)[0] == c;
    assert ([c] + s)[1..] == s;
  }

  /** Characters that cannot start "file://" are copied through. */
  lemma {:induction false} RemoveFileSchemeKeeps(p: string, s: string)
    requires 'f' !in p
    ensures RemoveFileScheme(p + s) == p + RemoveFileScheme(s)
    decreases |p|
  {
    if p != [] {
      assert p + s == [p[0]] + (p[1..] + s);
      RemoveFileSchemeCons(p[0], p[1..] + s);
      RemoveFileSchemeKeeps(p[1..], s);
      assert [p[0]] + (p[1..] + RemoveFileScheme(s)) == p + RemoveFileScheme(s);
    } else {
      assert p + s == s;
    }
  }

  lemma {:induction false} RemoveSchemeBeforeTail(rest: string)
    requires !ContainsScheme(rest)
    ensures RemoveFileScheme(FileScheme + ("e://" + rest)) == "e://" + rest
  {
    RemoveFileSchemeShortens(rest);
    var tail := "e://" + rest;
    RemoveFileSchemeKeeps("e://", rest);
    var middle := FileScheme + tail;
    assert middle[..|FileScheme|] == FileScheme && middle[|FileScheme|..] == tail;
  }

  lemma {:induction false} FilStartsNoScheme(middle: string)
    requires |middle| > 0 ==> middle[0] != 'e'
    ensures !StartsWith(['f'] + ("il" + middle), FileScheme)
  {
    var x := ['f'] + ("il" + middle);
    if |x| >= |FileScheme| {
      assert x[3] == middle[0];
      assert x[..|FileScheme|][3] != FileScheme[3];
    }
  }

  lemma {:induction false} KeepFilBefore(middle: string)
    requires |middle| > 0 ==> middle[0] != 'e'
    ensures RemoveFileScheme(['f'] + ("il" + middle)) == ['f'] + ("il" + RemoveFileScheme(middle))
  {
    FilStartsNoScheme(middle);
    RemoveFileSchemeCons('f', "il" + middle);
    RemoveFileSchemeKeeps("il", middle);
  }

  /**
   * One pass is not enough: in "filfile://e://" followed by any path without
   * "file://", removing the inner occurrence joins its neighbours into a
   * new one, which is what the handler then looks up.
   */
  lemma {:induction false} RemoveFileSchemeLeavesScheme(rest: string)
    requires !ContainsScheme(rest)
    ensures RemoveFileScheme("fil" + (FileScheme + ("e://" + rest))) == FileScheme + rest
    ensures ContainsScheme(RemoveFileScheme("fil" + (FileScheme + ("e://" + rest))))
  {
    RemoveSchemeBeforeTail(rest);
    var middle := FileScheme + ("e://" + rest);
    KeepFilBefore(middle);
    assert ['f'] + ("il" + middle) == "fil" + middle;
    assert ['f'] + ("il" + ("e://" + rest)) == FileScheme + rest;
    assert OccursAt(FileScheme + rest, FileScheme, 0);
  }

  // ------------------------------------------------------------- the handler

  /** `e.getMessage()` in a string concatenation: a null message is rendered "null". */
  function MessageText(message: Option<string>): string
  {
    if message.Some? then message.value else "null"
  }

  /** The whole handler: what the call is resolved or rejected with. */
  function Handle(call: Call, files: Store.Files, read: string -> ReadOutcome): Response
  {
    if !HasAllOptions(call) then Rejected(RequiredMessage)
    else
      var sanitizedPath := RemoveFileScheme(call.filePath.value);
      if sanitizedPath !in files then Rejected(NotFoundPrefix + sanitizedPath)
      else
        match read(sanitizedPath)
        case Thrown(message) => Rejected(ErrorPrefix + MessageText(message))
        case NullData => Rejected(ReadFailed)
        case Data(fileData) =>
          Resolved(AndroidResult(Base64.AndroidEncode(fileData), |fileData|, call.fileType.value, call.name.value, fileData))
  }

  /** A call without all three options is rejected first. */
  lemma MissingOptionRejected(call: Call, files: Store.Files, read: string -> ReadOutcome)
    requires !HasAllOptions(call)
    ensures Handle(call, files, read) == Rejected(RequiredMessage)
  {
  }

  /** A missing file is rejected with the sanitised path, before any read. */
  lemma MissingFileRejected(call: Call, files: Store.Files, read: string -> ReadOutcome)
    requires HasAllOptions(call) && RemoveFileScheme(call.filePath.value) !in files
    ensures Handle(call, files, read) == Rejected(NotFoundPrefix + RemoveFileScheme(call.filePath.value))
  {
  }

  /** Rejections after the existence check: null data, and an exception with its message (or "null"). */
  lemma ReadFailuresRejected(call: Call, files: Store.Files, read: string -> ReadOutcome)
    requires HasAllOptions(call) && RemoveFileScheme(call.filePath.value) in files
    ensures var outcome := read(RemoveFileScheme(call.filePath.value));
            (outcome.NullData? ==> Handle(call, files, read) == Rejected(ReadFailed))
            && (outcome.Thrown? ==> Handle(call, files, read) == Rejected(ErrorPrefix + MessageText(outcome.message)))
            && (outcome == Thrown(None) ==> Handle(call, files, read) == Rejected("Error processing file: null"))
  {
  }

  /**
   * A resolved call: the byte array is what was read, the size its length, the
   * type and name the caller's, and the base64 text decodes back to the bytes.
   */
  lemma {:induction false} ResolvedResult(call: Call, files: Store.Files, read: string -> ReadOutcome)
    ensures var response := Handle(call, files, read);
            response.Resolved? ==>
              var r := response.result;
              HasAllOptions(call)
              && RemoveFileScheme(call.filePath.value) in files
              && read(RemoveFileScheme(call.filePath.value)) == Data(r.byteArray)
              && r.size == |r.byteArray|
              && r.fileType == call.fileType.value && r.fileName == call.name.value
              && Base64.ForgivingDecode(r.base64) == Some(r.byteArray)
  {
    var response := Handle(call, files, read);
    if response.Resolved? {
      Base64.ForgivingDecodeAndroidEncode(response.result.byteArray);
    }
  }

  /** When the read gives the file's contents, a call that gets past the checks resolves with exactly those bytes. */
  lemma ReadsTheFile(call: Call, files: Store.Files, read: string -> ReadOutcome)
    requires HasAllOptions(call) && RemoveFileScheme(call.filePath.value) in files
    requires read(RemoveFileScheme(call.filePath.value)) == Data(files[RemoveFileScheme(call.filePath.value)])
    ensures var bytes := files[RemoveFileScheme(call.filePath.value)];
            Handle(call, files, read)
            == Resolved(AndroidResult(Base64.AndroidEncode(bytes), |bytes|, call.fileType.value, call.name.value, bytes))
  {
  }

  // ------------------------------------------------------------- JSObject

  datatype JsValue = JsString(s: string) | JsInt(i: int) | JsBytes(bytes: seq<byte>)

  /** The entries the resolving object holds for a result. */
  function Entries(r: AndroidResult): (m: map<string, JsValue>)
    ensures m.Keys == {"base64", "size", "type", "fileName", "byteArray"}
    ensures m["base64"] == JsString(r.base64) && m["size"] == JsInt(r.size)
    ensures m["type"] == JsString(r.fileType) && m["fileName"] == JsString(r.fileName)
    ensures m["byteArray"] == JsBytes(r.byteArray)
  {
    map["base64" := JsString(r.base64), "size" := JsInt(r.size), "type" := JsString(r.fileType),
        "fileName" := JsString(r.fileName), "byteArray" := JsBytes(r.byteArray)]
  }

  /** A JSON object under construction. */
  class JSObject {
    var entries: map<string, JsValue>

    constructor ()
      ensures entries == map[]
    {
      entries := map[];
    }

    method Put(key: string, value: JsValue)
      modifies this
      ensures entries == old(entries)[key := value]
    {
      entries := entries[key := value];
    }
  }

  /** What the call is settled with: the resolving object's entries, or the rejection message. */
  datatype Settled = ResolvedWith(entries: map<string, JsValue>) | RejectedWith(message: string)

  function Settle(response: Response): Settled
  {
    match response
    case Resolved(r) => ResolvedWith(Entries(r))
    case Rejected(m) => RejectedWith(m)
  }

  /** `processFile`, step by step: the checks, the read, the five puts, and the resolve. */
  method ProcessFile(call: Call, files: Store.Files, read: string -> ReadOutcome) returns (settled: Settled)
    ensures settled == Settle(Handle(call, files, read))
  {
    var filePath, fileType, fileName := call.filePath, call.fileType, call.name;
    if filePath.None? || fileType.None? || fileName.None? {
      return RejectedWith(RequiredMessage);
    }
    var sanitizedPath := RemoveFileScheme(filePath.value);
    if sanitizedPath !in files {
      return RejectedWith(NotFoundPrefix + sanitizedPath);
    }
    var fileData := read(sanitizedPath);
    if fileData.Thrown? {
      return RejectedWith(ErrorPrefix + MessageText(fileData.message));
    }
    if fileData.NullData? {
      return RejectedWith(ReadFailed);
    }
    var base64Encoded := Base64.AndroidEncode(fileData.bytes);
    var fileSize := |fileData.bytes|;
    var result := new JSObject();
    result.Put("base64", JsString(base64Encoded));
    result.Put("size", JsInt(fileSize));
    result.Put("type", JsString(fileType.value));
    result.Put("fileName", JsString(fileName.value));
    result.Put("byteArray", JsBytes(fileData.bytes));
    settled := ResolvedWith(result.entries);
  }
}

# Importlargefile `processFile`, modelled in Dafny

Importlargefile is a Capacitor plugin with one operation, `processFile`. It
takes a file path, a type and a name prefix, and hands the file's bytes back
to JavaScript. This project models the three implementations of that
operation and proves what each of them promises.

- **iOS** (`FileuploadPluginPlugin.swift`):
  - validates the three options;
  - strips a leading `file://`;
  - percent-decodes the path, keeping the undecoded path when decoding fails;
  - checks that the file exists;
  - copies the file into the documents directory, deleting any file already there (the model keeps a file that already is its own destination; see "## Findings");
  - sends mp4/mov files to the video compressor and reads every other type as it is;
  - builds the result record (`size`, `type`, `fileName`, `byteArray`);
  - sweeps the temporary directory.
- **Android** (`FileuploadPluginPlugin.java`):
  - validates the options;
  - removes every `file://` with `String.replace`;
  - checks that the file exists and that the read returned data;
  - puts `base64`, `size`, `type`, `fileName` and `byteArray` into a `JSObject`;
  - maps exceptions to rejections.
- **Web** (`web.ts`):
  - reshapes the native result;
  - estimates the size as `base64.length * 3/4`;
  - decodes the base64 text with `atob` and a char-code loop into a `Uint8Array`.

The standards behind the library calls are modelled as well:
- UTF-8 (RFC 3629) and percent-decoding (section 2.1 of RFC 3986), for Foundation's `removingPercentEncoding`;
- base64 (section 4 of RFC 4648) with Android's `Base64.DEFAULT` line wrapping;
- the WHATWG forgiving-base64 decode that `atob` performs;
- Swift's decimal rendering of an `Int`.

Modules:
- `Common`: bytes, `Option`, `Result`, small sequence predicates.
- `Decimal`, `Utf8`, `PercentEncoding`, `Base64`: the standards above. Each has the round trip that shows it loses nothing.
- `Paths`: `appendingPathComponent`, `lastPathComponent`, and "directly inside a directory".
- `Store`: the file system, a map from path to bytes.
  - `Limits` names, independently of each other, the paths the platform refuses to delete, the paths at which it refuses to create a copy, the existing files it cannot read (too large to load, an I/O error) and the directories it cannot list. It is how I/O failures enter the model, so a delete can succeed and the copy after it still fail, and a file that exists can still fail to load.
  - `FileSystem` is a class whose methods are the `FileManager` calls the plugin makes, each proved against a step function.
- `PluginCall`: the options and messages shared by both native handlers.
- `IosPlugin`:
  - `Process` decides a whole call: the response, the files afterwards, and whether cleanup runs. It uses the corrected relocation `Relocate` (see "## Findings"); `RelocateAsWritten` is the copy exactly as the source writes it, and the two differ only when the file already is at its persistent path.
  - `SweepEntries` specifies the cleanup loop.
  - The methods `CopyToPersistentLocation`, `ProcessFileInBackground`, `CleanupMemory` and `ProcessFile` run the same steps on a `FileSystem` and are proved to produce what `Process` and `SweepEntries` describe.
- `AndroidPlugin`:
  - `Handle` decides a call.
  - `ProcessFile` builds the `JSObject` with its five puts, and is proved to settle as `Handle` says.
- `WebPlugin`: `Reshape` decides what the wrapper's promise settles with. `Base64ToUint8Array` and `ProcessFile` are the loop and the wrapper, proved against it.
- `CrossPlatform`: how the implementations relate.
  - If the native call the web wrapper awaits were answered by the Android handler, the wrapper would recover the Android byte array exactly. This composition is hypothetical: `web.ts` runs in the browser, and it looks the native plugin up under a name that `index.ts` does not register (see "## Left out").
  - On Android's text the web size estimate overshoots the real size.
  - The two native sanitisers produce the same string exactly when no `file://` remains after the iOS strip. They look up the same file when, in addition, the path has no "%", because iOS percent-decodes and Android does not ("/a%41" is "/aA" on iOS and "/a%41" on Android).

Calls the plugin makes into code that is not modelled become parameters:
- the video compressor (`compress`);
- the clock (`timestamp`);
- the documents and temporary directories;
- on Android, what `readFileToByteArray` returns (`read`);
- on the web, how the native call settles.

## Model

| member | source | states |
|---|---|---|
| Decimal.IntRoundTrip | ios/Sources/FileuploadPluginPlugin/FileuploadPluginPlugin.swift:108-109 | the decimal text of any timestamp, negative ones included, parses back to that timestamp |
| Decimal.IntToStringInjective | ios/Sources/FileuploadPluginPlugin/FileuploadPluginPlugin.swift:108-109 | two timestamps render to the same text exactly when they are equal |
| Utf8.RoundTrip | ios/Sources/FileuploadPluginPlugin/FileuploadPluginPlugin.swift:39 | strict UTF-8 decoding of the encoding of any string gives the string back |
| PercentEncoding.UnescapeFailsIffMalformed | ios/Sources/FileuploadPluginPlugin/FileuploadPluginPlugin.swift:39 | unescaping fails exactly when some "%" is not followed by two hex digits (both directions) |
| PercentEncoding.UnescapeEscapeAll | ios/Sources/FileuploadPluginPlugin/FileuploadPluginPlugin.swift:39 | unescaping undoes percent-encoding of every byte |
| PercentEncoding.WithoutPercentIsUnchanged | ios/Sources/FileuploadPluginPlugin/FileuploadPluginPlugin.swift:39 | `removingPercentEncoding` of a string without "%" is that string |
| PercentEncoding.MalformedEscapeFails | ios/Sources/FileuploadPluginPlugin/FileuploadPluginPlugin.swift:39 | a malformed escape makes `removingPercentEncoding` return nil |
| PercentEncoding.DecodesEscapedUtf8 | ios/Sources/FileuploadPluginPlugin/FileuploadPluginPlugin.swift:39 | escaping every UTF-8 byte of a string and decoding gives the string back |
| Base64.ForgivingDecodeAndroidEncode | android/src/main/java/com/xnode/fileupload/FileuploadPluginPlugin.java:57 | the forgiving decode of Android's wrapped base64 text of any bytes is those bytes |
| Base64.ForgivingDecodeEncode | src/web.ts:42 | the forgiving decode of the RFC 4648 encoding of any bytes is those bytes |
| Base64.EncodeLength | android/src/main/java/com/xnode/fileupload/FileuploadPluginPlugin.java:57 | the padded encoding of n bytes has 4·⌈n/3⌉ characters |
| Base64.WrapLength | android/src/main/java/com/xnode/fileupload/FileuploadPluginPlugin.java:57 | wrapping adds one line feed per started line of 76 characters |
| Base64.AndroidEncodeLength | android/src/main/java/com/xnode/fileupload/FileuploadPluginPlugin.java:57 | the length of Android's base64 text of n bytes, line feeds included |
| Paths.LastPathComponentOfJoin | ios/Sources/FileuploadPluginPlugin/FileuploadPluginPlugin.swift:170 | the last component of a directory joined with a name is that name |
| Paths.JoinInDirectory | ios/Sources/FileuploadPluginPlugin/FileuploadPluginPlugin.swift:210-214 | a name joined to a directory is an entry of that directory and of no other |
| Store.RemoveStep | ios/Sources/FileuploadPluginPlugin/FileuploadPluginPlugin.swift:173 | `removeItem` succeeds exactly on an existing path it may delete and then deletes only that path; a failure changes nothing |
| Store.CopyStep | ios/Sources/FileuploadPluginPlugin/FileuploadPluginPlugin.swift:176 | `copyItem` succeeds exactly when the source exists and the destination is free and may be created, and then adds the source's bytes at the destination; a failure changes nothing |
| Store.ReadStep | ios/Sources/FileuploadPluginPlugin/FileuploadPluginPlugin.swift:104 | `Data(contentsOf:)` gives a file's bytes exactly when it exists and is readable; an existing file that cannot be read gives the read error |
| Store.FileSystem.FileExists | ios/Sources/FileuploadPluginPlugin/FileuploadPluginPlugin.swift:43 | definition: membership in the current files; what the check decides is stated by `IosPlugin.MissingFileRejected` and `IosPlugin.CleanupAfterExistenceCheck` |
| Store.FileSystem.RemoveItem | ios/Sources/FileuploadPluginPlugin/FileuploadPluginPlugin.swift:173 | the new files and the error are those of a remove step on the old files |
| Store.FileSystem.CopyItem | ios/Sources/FileuploadPluginPlugin/FileuploadPluginPlugin.swift:176 | the new files and the error are those of a copy step on the old files |
| Store.FileSystem.ContentsOf | ios/Sources/FileuploadPluginPlugin/FileuploadPluginPlugin.swift:104 | definition: the read step on the current files; the bytes a call returns are stated by `IosPlugin.PassthroughFidelity` |
| Store.FileSystem.ContentsOfDirectory | ios/Sources/FileuploadPluginPlugin/FileuploadPluginPlugin.swift:212 | the listing succeeds exactly when the directory may be listed, and then names every entry directly inside it exactly once; otherwise it reports the error |
| IosPlugin.SanitizePath | ios/Sources/FileuploadPluginPlugin/FileuploadPluginPlugin.swift:38 | the result is a suffix of the path; exactly seven characters go when the path starts with "file://", none otherwise |
| IosPlugin.DecodedPath | ios/Sources/FileuploadPluginPlugin/FileuploadPluginPlugin.swift:39 | when percent-decoding fails, the sanitised path is used as it is |
| IosPlugin.DecodedPathWithoutPercent | ios/Sources/FileuploadPluginPlugin/FileuploadPluginPlugin.swift:38-39 | a path without "%" is used as sanitised |
| IosPlugin.DecodedPathOfEscapedUrl | ios/Sources/FileuploadPluginPlugin/FileuploadPluginPlugin.swift:38-39 | a file URL whose path is fully percent-encoded resolves to that path |
| IosPlugin.DecodedPathOfFileUrl | ios/Sources/FileuploadPluginPlugin/FileuploadPluginPlugin.swift:38-39 | "file:///tmp/clip.mov" resolves to "/tmp/clip.mov" |
| IosPlugin.RelocateAsWrittenDeletesSource | ios/Sources/FileuploadPluginPlugin/FileuploadPluginPlugin.swift:166-180 | as written, a source already at its destination is deleted and the copy then fails with "no such file" |
| IosPlugin.RelocateAsWrittenExample | ios/Sources/FileuploadPluginPlugin/FileuploadPluginPlugin.swift:166-180 | "/docs/clip.mov" copied into "/docs" leaves no file at all and an error |
| IosPlugin.RelocateEffect | ios/Sources/FileuploadPluginPlugin/FileuploadPluginPlugin.swift:166-180 | corrected relocation: the copy succeeds exactly when the destination is the source, or its earlier file may be deleted and the copy there may be created; on success the destination holds the source's bytes and nothing else changes; on failure the source is kept, and an earlier file at the destination is gone unless its delete was the step refused |
| IosPlugin.RelocateKeepsSource | ios/Sources/FileuploadPluginPlugin/FileuploadPluginPlugin.swift:166-180 | corrected relocation: the caller's file keeps its bytes whatever the copy's outcome |
| IosPlugin.VideoTypeSpellings | ios/Sources/FileuploadPluginPlugin/FileuploadPluginPlugin.swift:96 | the gate takes exactly the three-letter types m-p-4 and m-o-v in any letter case (both directions) |
| IosPlugin.FileNameParts | ios/Sources/FileuploadPluginPlugin/FileuploadPluginPlugin.swift:109 | the name is prefix, "_", decimal timestamp, ".", type, and the timestamp parses back out of it |
| IosPlugin.FileNameCollision | ios/Sources/FileuploadPluginPlugin/FileuploadPluginPlugin.swift:108-109 | with the same prefix and type, two names are equal exactly when the timestamps are |
| IosPlugin.ProcessInBackground | ios/Sources/FileuploadPluginPlugin/FileuploadPluginPlugin.swift:96-124 | a result's size is its byte count, its type the caller's, its name built from the caller's prefix and type |
| IosPlugin.Continue | ios/Sources/FileuploadPluginPlugin/FileuploadPluginPlugin.swift:49-70 | once the file exists, cleanup always runs and every rejection carries "Error processing media file: " |
| IosPlugin.MissingOptionRejected | ios/Sources/FileuploadPluginPlugin/FileuploadPluginPlugin.swift:26-31 | a call missing an option is rejected with the required-options message, changes nothing and runs no cleanup |
| IosPlugin.MissingFileRejected | ios/Sources/FileuploadPluginPlugin/FileuploadPluginPlugin.swift:43-46 | a path that resolves to no file is rejected with that resolved path, changes nothing and runs no cleanup |
| IosPlugin.CleanupAfterExistenceCheck | ios/Sources/FileuploadPluginPlugin/FileuploadPluginPlugin.swift:43-70 | cleanup runs exactly for calls that pass validation and the existence check (both directions) |
| IosPlugin.LaterFailuresArePrefixed | ios/Sources/FileuploadPluginPlugin/FileuploadPluginPlugin.swift:64-70 | every rejection after the existence check starts with "Error processing media file: " |
| IosPlugin.ResolvedShape | ios/Sources/FileuploadPluginPlugin/FileuploadPluginPlugin.swift:107-124 | a resolved call's size equals its byte count, its type is the caller's, its name is built from the caller's prefix and type |
| IosPlugin.PassthroughFidelity | ios/Sources/FileuploadPluginPlugin/FileuploadPluginPlugin.swift:102-124 | with the corrected relocation: a readable non-video file comes back byte for byte with its exact size, and only its persistent copy is added |
| IosPlugin.UnreadableCopyRejected | ios/Sources/FileuploadPluginPlugin/FileuploadPluginPlugin.swift:104 | with the corrected relocation: a non-video copy that cannot be read is rejected with "Error processing media file: " and the read error; the copy stays and cleanup runs |
| IosPlugin.VideoIsCompressed | ios/Sources/FileuploadPluginPlugin/FileuploadPluginPlugin.swift:96-101 | with the corrected relocation: a video comes back as the compressor's output; when compression fails, or the copy cannot be read, the call is rejected with "Compression failed" and never falls back to the raw bytes |
| IosPlugin.CopyFailureRejected | ios/Sources/FileuploadPluginPlugin/FileuploadPluginPlugin.swift:172-176 | a refused relocation is rejected with the error's description and still runs cleanup; the caller's file stays, and an earlier file at the destination is lost when its delete succeeded and the copy failed |
| IosPlugin.ProcessChangesOnlyTheCopy | ios/Sources/FileuploadPluginPlugin/FileuploadPluginPlugin.swift:166-180 | with the corrected relocation: a call changes, adds or removes no entry but the persistent copy, and the caller's file keeps its bytes |
| IosPlugin.SweepEffect | ios/Sources/FileuploadPluginPlugin/FileuploadPluginPlugin.swift:213-219 | the sweep deletes the listed entries in order up to the first one it may not delete, stops there with its error, and keeps it and every later entry |
| IosPlugin.SweepEmptiesDirectory | ios/Sources/FileuploadPluginPlugin/FileuploadPluginPlugin.swift:210-219 | the sweep finishes without error exactly when every entry may be deleted, then leaves the directory empty; files elsewhere are untouched |
| IosPlugin.PersistentCopySurvivesCleanup | ios/Sources/FileuploadPluginPlugin/FileuploadPluginPlugin.swift:59 | with the corrected relocation: after a resolved call the cleanup keeps the persistent copy, with the caller's bytes, when documents and temporary directories differ, whether or not the temporary directory can be listed |
| IosPlugin.CopyToPersistentLocation | ios/Sources/FileuploadPluginPlugin/FileuploadPluginPlugin.swift:166-180 | the result and the new files are those of the corrected relocation on the old files |
| IosPlugin.ProcessFileInBackground | ios/Sources/FileuploadPluginPlugin/FileuploadPluginPlugin.swift:75-134 | returns what the background function decides for the current files |
| IosPlugin.CleanupMemory | ios/Sources/FileuploadPluginPlugin/FileuploadPluginPlugin.swift:202-223 | lists the temporary directory and leaves the files `Cleanup` gives for that listing: a directory that cannot be listed is left untouched with the error, otherwise the listed entries are swept |
| IosPlugin.ProcessFile | ios/Sources/FileuploadPluginPlugin/FileuploadPluginPlugin.swift:25-72 | with the corrected relocation: responds as the call specification decides; when cleanup runs, the files are those `Cleanup` leaves of the files that specification gives |
| AndroidPlugin.RemoveFileSchemeShortens | android/src/main/java/com/xnode/fileupload/FileuploadPluginPlugin.java:42 | a path without "file://" is kept; one with it always gets shorter |
| AndroidPlugin.RemoveFileSchemeUnchanged | android/src/main/java/com/xnode/fileupload/FileuploadPluginPlugin.java:42 | the path is unchanged exactly when it contains no "file://" (both directions) |
| AndroidPlugin.RemoveLeadingScheme | android/src/main/java/com/xnode/fileupload/FileuploadPluginPlugin.java:42 | a single leading "file://" is all that goes |
| AndroidPlugin.RemoveFileSchemeLeavesScheme | android/src/main/java/com/xnode/fileupload/FileuploadPluginPlugin.java:42 | one pass can leave a "file://": "filfile://e://" followed by any path without it becomes "file://" followed by that path |
| AndroidPlugin.MissingOptionRejected | android/src/main/java/com/xnode/fileupload/FileuploadPluginPlugin.java:35-38 | a null option is rejected with the required-options message |
| AndroidPlugin.MissingFileRejected | android/src/main/java/com/xnode/fileupload/FileuploadPluginPlugin.java:45-48 | a missing file is rejected with the sanitised path |
| AndroidPlugin.ReadFailuresRejected | android/src/main/java/com/xnode/fileupload/FileuploadPluginPlugin.java:51-72 | null data is rejected with "Failed to read file"; an exception with "Error processing file: " and its message, "null" for a null message |
| AndroidPlugin.ResolvedResult | android/src/main/java/com/xnode/fileupload/FileuploadPluginPlugin.java:57-65 | a resolved result holds the bytes read, their count as size, the caller's type and name, and base64 text that decodes back to the bytes |
| AndroidPlugin.ReadsTheFile | android/src/main/java/com/xnode/fileupload/FileuploadPluginPlugin.java:51-65 | when the read returns the file's contents, a call past the checks resolves with exactly those bytes |
| AndroidPlugin.Entries | android/src/main/java/com/xnode/fileupload/FileuploadPluginPlugin.java:60-65 | definition: the five keys and the field each holds; `AndroidPlugin.ProcessFile` is proved to build exactly this object with its puts |
| AndroidPlugin.JSObject.Put | android/src/main/java/com/xnode/fileupload/FileuploadPluginPlugin.java:61-65 | a put sets one key and leaves the others |
| AndroidPlugin.ProcessFile | android/src/main/java/com/xnode/fileupload/FileuploadPluginPlugin.java:30-73 | settles with the entries of the object the handler specification describes, or with its rejection |
| WebPlugin.Atob | src/web.ts:42 | definition: the forgiving decode as a string of one character per byte, or InvalidCharacterError; what it recovers is stated by `Base64.ForgivingDecodeEncode` and `WebPlugin.CharCodesOfBinaryString` |
| WebPlugin.CharCodes | src/web.ts:43-47 | definition: each position's char code stored modulo 256; `WebPlugin.Base64ToUint8Array` is the loop proved against it |
| WebPlugin.SizeEstimate | src/web.ts:30 | definition: three quarters of the text length, with no rounding; how it compares with the real size is stated by `CrossPlatform.SizeEstimateOfAndroidText` and `CrossPlatform.SizeEstimateOfUnwrappedText` |
| WebPlugin.ReshapedFields | src/web.ts:28-34 | base64 passes through, type and name come from the caller's options, size is three quarters of the text length, and the byte array is the text's decoding |
| WebPlugin.ReshapeSucceedsOnBase64 | src/web.ts:33 | given base64 text, the wrapper succeeds exactly when the text decodes, and otherwise fails with InvalidCharacterError |
| WebPlugin.NativeErrorRethrown | src/web.ts:35-38 | a native rejection is rethrown unchanged |
| WebPlugin.MissingBase64Fails | src/web.ts:30 | a native result without "base64" makes the wrapper fail with a TypeError |
| WebPlugin.Base64ToUint8Array | src/web.ts:41-49 | returns a fresh array holding exactly the forgiving decode of the text, or InvalidCharacterError when there is none |
| WebPlugin.ProcessFile | src/web.ts:22-39 | settles as the reshaping specification decides, with the bytes in a fresh array |
| CrossPlatform.AndroidResultOnWeb | src/web.ts:28-34 | hypothetically, given an Android result's base64 text, the reshaping returns exactly the Android byte array |
| CrossPlatform.SizeEstimateOfAndroidText | src/web.ts:30 | on Android's text the estimate is 0 for no bytes and strictly above the real size otherwise |
| CrossPlatform.SizeEstimateOfUnwrappedText | src/web.ts:30 | on unwrapped text the estimate is the size rounded up to a multiple of three |
| CrossPlatform.SanitizersAgree | android/src/main/java/com/xnode/fileupload/FileuploadPluginPlugin.java:42 | Android's and iOS's sanitised paths are equal exactly when no "file://" remains after iOS's (both directions) |
| CrossPlatform.PlainPathsResolveAlike | ios/Sources/FileuploadPluginPlugin/FileuploadPluginPlugin.swift:38-39 | without "%" and without an inner "file://", iOS and Android look up the same file |

Two behaviours of the code worth knowing:
- The web size estimate is `length * (3 / 4)` with no rounding (web.ts:30), so `WebPlugin.SizeEstimate` is a `real` and is not a whole number for most lengths.
- The iOS sweep stops at the first `removeItem` that fails (swift:213-219): the remaining entries of the temporary directory are not deleted (`IosPlugin.SweepEffect`).

## Left out

- The video export: it is a parameter, `compress`, from the persistent file's bytes to the compressed bytes or a failure. A copy the model cannot read also makes the export fail; AVFoundation's own access to the file is not modelled separately. AVFoundation, the export preset, and the temporary `.mp4` the export writes and deletes are not part of this model.
- Concurrency: the background `Task`, the dispatch queues, checked continuations, the main-queue `resolve`/`reject`, and the asynchronous, fire-and-forget `cleanupMemory`. The model runs the sweep after the response, as one sequential step, so races between a sweep and a concurrent call are not modelled.
- The 100 MB allocation, `autoreleasepool`, `fileData.removeAll()`, `logMemoryUsage`, `URLCache.removeAllCachedResponses` and `print`: they have no effect on the result or on files.
- The memory-warning observer (`load`, `handleMemoryWarning`): it calls the same sweep, which is modelled.
- Foundation's error wording: `FsError.Description` stands in for `localizedDescription`. The model keeps which error occurs and on which path.
- Directories as entries: the file system holds regular files only. `fileExists` on a directory, the recursive `removeItem` of a subdirectory of the temporary directory, symbolic links and relative paths are not modelled.
- `Date().timeIntervalSince1970`, the documents directory and the temporary directory: they are parameters.
- IosPlugin.SanitizePath: Swift's `hasPrefix` and `dropFirst(7)` work on Characters (extended grapheme clusters, compared by canonical equivalence); the model works on Unicode scalars. The two differ only when a combining mark follows "file://" (Swift keeps "file://\u{301}x" whole, the model strips seven scalars); grapheme segmentation is not modelled.
- `IosPlugin.IsVideoType`: `lowercased()` is modelled for ASCII letters only. No non-ASCII character lowercases to m, p, 4, o or v, so the gate's decision is unaffected.
- `readFileToByteArray` and `File.exists()` on Android: the read is a parameter that returns the data, null or an exception. The partial single `read` into a `file.length()` buffer is not modelled, nor a `SecurityException` from the existence check.
- `System.gc()` after the Android resolve: it has no effect on what is modelled.
- Java's signed `byte` values, and how the bridge serialises `byteArray` to JavaScript: the model keeps bytes as 0..255 values.
- `WebPlugin.SizeEstimate`: the estimate is exact real arithmetic, not IEEE double. The two agree for any string shorter than 2^51 characters.
- A native result whose `base64` is present but not a string, and the console logging, are not modelled on the web.
- The plugin lookup on the web: `web.ts` asks `Capacitor.Plugins` for "FileuploadPluginPlugin" (web.ts:25), while `index.ts` registers the plugin as "FileuploadPlugin" (index.ts:5). The registry belongs to Capacitor and is not part of this model, so `WebPlugin.ProcessFile` takes how the native call settles as a parameter, and `CrossPlatform.AndroidResultOnWeb` holds only if that call reaches the Android handler.
- `echo` on Android and the web, and `getContacts` on the web: they are dummies outside the modelled operation.

## Findings

| source | as written | input that shows it | evidently intended | confidence | as-written member | corrected member |
|---|---|---|---|---|---|---|
| ios/Sources/FileuploadPluginPlugin/FileuploadPluginPlugin.swift:172-176 | when the destination exists it is deleted before the copy, even when the destination is the source itself | a `filePath` already in the documents directory, e.g. documents "/docs" and file "/docs/clip.mov": the file is deleted, `copyItem` fails with "no such file", the call is rejected and the caller's file is lost | a source already at its persistent location is left in place and used as it is | not executed | IosPlugin.RelocateAsWrittenDeletesSource | IosPlugin.RelocateEffect |

/**
 * How the three implementations of `processFile` relate: the web wrapper
 * reading an Android result, the web size estimate against the real byte
 * count, and where the iOS and Android path handling agree and differ.
 */
module CrossPlatform {
  import opened Common
  import opened PluginCall
  import Base64
  import IosPlugin
  import AndroidPlugin
  import WebPlugin

  /** The web wrapper, given the base64 text of an Android result, recovers exactly the Android byte array. */
  lemma {:induction false} AndroidResultOnWeb(call: Call, files: map<string, seq<byte>>, read: string -> AndroidPlugin.ReadOutcome,
                           options: WebPlugin.Options)
    ensures var response := AndroidPlugin.Handle(call, files, read);
            response.Resolved? ==>
              var r := response.result;
              WebPlugin.Reshape(options, WebPlugin.NativeResolved(Some(r.base64)))
              == Ok(WebPlugin.WebResult(r.base64, WebPlugin.SizeEstimate(r.base64), options.fileType, options.name, r.byteArray))
  {
    var response := AndroidPlugin.Handle(call, files, read);
    if response.Resolved? {
      var r := response.result;
      AndroidPlugin.ResolvedResult(call, files, read);
      WebPlugin.CharCodesOfBinaryString(r.byteArray);
    }
  }

  /**
   * On Android's base64 text the estimate is never below the real size: it
   * is zero for no bytes and strictly larger for any bytes, since the text
   * carries padding and line breaks.
   */
  lemma {:induction false} SizeEstimateOfAndroidText(bytes: seq<byte>)
    ensures bytes == [] ==> WebPlugin.SizeEstimate(Base64.AndroidEncode(bytes)) == 0.0
    ensures bytes != [] ==> WebPlugin.SizeEstimate(Base64.AndroidEncode(bytes)) > |bytes| as real
  {
    Base64.AndroidEncodeLength(bytes);
    var n := |bytes|;
    var e := |Base64.Encode(bytes)|;
    var text := |Base64.AndroidEncode(bytes)|;
    if n > 0 {
      assert 3 * ((n + 2) / 3) >= n;
      assert 3 * e >= 4 * n;
      assert (e + Base64.LineLength - 1) / Base64.LineLength >= 1;
      assert 3 * text > 4 * n;
      assert 3.0 * text as real > 4.0 * n as real;
    }
  }

  /** Without a line break the estimate is the size rounded up to a whole base64 group. */
  lemma {:induction false} SizeEstimateOfUnwrappedText(bytes: seq<byte>)
    ensures WebPlugin.SizeEstimate(Base64.Encode(bytes)) == (3 * ((|bytes| + 2) / 3)) as real
  {
    Base64.EncodeLength(bytes);
  }

  /** Both platforms take the same path from the caller exactly when what stays after a leading "file://" holds no other. */
  lemma {:induction false} SanitizersAgree(filePath: string)
    ensures AndroidPlugin.RemoveFileScheme(filePath) == IosPlugin.SanitizePath(filePath)
        <==> !AndroidPlugin.ContainsScheme(IosPlugin.SanitizePath(filePath))
  {
    var t := IosPlugin.SanitizePath(filePath);
    AndroidPlugin.RemoveFileSchemeShortens(t);
    if StartsWith(filePath, FileScheme) {
      assert filePath == FileScheme + t;
      assert filePath[..|FileScheme|] == FileScheme && filePath[|FileScheme|..] == t;
      assert AndroidPlugin.RemoveFileScheme(filePath) == AndroidPlugin.RemoveFileScheme(t);
    }
  }

  /** With no "%" and no inner "file://", iOS resolves the caller's path to the file Android looks up. */
  lemma {:induction false} PlainPathsResolveAlike(filePath: string)
    requires '%' !in IosPlugin.SanitizePath(filePath)
    requires !AndroidPlugin.ContainsScheme(IosPlugin.SanitizePath(filePath))
    ensures IosPlugin.DecodedPath(filePath) == AndroidPlugin.RemoveFileScheme(filePath)
  {
    IosPlugin.DecodedPathWithoutPercent(filePath);
    SanitizersAgree(filePath);
  }
}

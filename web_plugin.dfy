/**
 * The web wrapper's `processFile`: it awaits the native call, reshapes what
 * comes back, and decodes the base64 text into a byte array with `atob` and a
 * loop over char codes.
 *
 * The native call is a parameter: how it settles, given by the "base64" field
 * of the object it resolves with (None when the object has none) or by the
 * message it rejects with.
 */
module WebPlugin {
  import opened Common
  import Base64

  /** The options the caller passes. */
  datatype Options = Options(filePath: string, fileType: string, name: string)

  /** The errors the wrapper's promise can reject with. */
  datatype JsError =
    | NativeError(message: string)   // the native call's own rejection, rethrown
    | TypeError                      // `result.base64.length` on a result without "base64"
    | InvalidCharacterError          // `atob` on text that is not base64

  datatype NativeOutcome = NativeResolved(base64: Option<string>) | NativeRejected(message: string)

  /** The object the wrapper returns; the byte array is a sequence in the specification, an array in the method. */
  datatype WebResult<Bytes> = WebResult(base64: string, size: real, fileType: string, fileName: string, byteArray: Bytes)

  /** The string whose char codes are the given bytes. */
  function BinaryString(bytes: seq<byte>): (s: string)
    ensures |s| == |bytes| && forall i :: 0 <= i < |s| ==> s[i] as int == bytes[i]
  {
    seq(|bytes|, i requires 0 <= i < |bytes| => bytes[i] as char)
  }

  /** `atob`: forgiving-base64 decoding, one character per decoded byte. */
  function Atob(s: string): (r: Result<string, JsError>)
    ensures r.Ok? <==> Base64.ForgivingDecode(s).Some?
    ensures r.Ok? ==> r.value == BinaryString(Base64.ForgivingDecode(s).value)
    ensures r.Err? ==> r.error == InvalidCharacterError
  {
    match Base64.ForgivingDecode(s)
    case None => Err(InvalidCharacterError)
    case Some(bytes) => Ok(BinaryString(bytes))
  }

  /** Storing a char code into a `Uint8Array` keeps it modulo 256. */
  function ToUint8(code: int): byte
  {
    code % 256
  }

  /** The byte array the loop fills from a string. */
  function CharCodes(s: string): (b: seq<byte>)
    ensures |b| == |s| && forall i :: 0 <= i < |s| ==> b[i] == ToUint8(s[i] as int)
  {
    seq(|s|, i requires 0 <= i < |s| => ToUint8(s[i] as int))
  }

  /** The char codes of a binary string are the bytes it was made from. */
  lemma CharCodesOfBinaryString(bytes: seq<byte>)
    ensures CharCodes(BinaryString(bytes)) == bytes
  {
  }

  /** `base64.length * (3 / 4)`: an estimate, with no rounding. */
  function SizeEstimate(base64: string): (size: real)
    ensures 4.0 * size == 3.0 * |base64| as real
  {
    |base64| as real * (3.0 / 4.0)
  }

  /** What the wrapper's promise settles with. */
  function Reshape(options: Options, native: NativeOutcome): Result<WebResult<seq<byte>>, JsError>
  {
    match native
    case NativeRejected(message) => Err(NativeError(message))
    case NativeResolved(None) => Err(TypeError)
    case NativeResolved(Some(base64)) =>
      match Atob(base64)
      case Err(e) => Err(e)
      case Ok(binaryString) =>
        Ok(WebResult(base64, SizeEstimate(base64), options.fileType, options.name, CharCodes(binaryString)))
  }

  /**
   * A reshaped result passes the native base64 text through, takes type and
   * name from the caller's options, estimates the size as three quarters of
   * the text's length, and holds the decoding of that text.
   */
  lemma {:induction false} ReshapedFields(options: Options, native: NativeOutcome)
    ensures var r := Reshape(options, native);
            r.Ok? ==>
              native == NativeResolved(Some(r.value.base64))
              && r.value.fileType == options.fileType && r.value.fileName == options.name
              && 4.0 * r.value.size == 3.0 * |r.value.base64| as real
              && Base64.ForgivingDecode(r.value.base64) == Some(r.value.byteArray)
  {
    if native.NativeResolved? && native.base64.Some? && Base64.ForgivingDecode(native.base64.value).Some? {
      CharCodesOfBinaryString(Base64.ForgivingDecode(native.base64.value).value);
    }
  }

  /** Whatever base64 text decodes is reshaped into a result: the only failure after the native call is bad text. */
  lemma ReshapeSucceedsOnBase64(options: Options, base64: string)
    ensures Reshape(options, NativeResolved(Some(base64))).Ok? <==> Base64.ForgivingDecode(base64).Some?
    ensures Reshape(options, NativeResolved(Some(base64))).Err? ==>
              Reshape(options, NativeResolved(Some(base64))) == Err(InvalidCharacterError)
  {
  }

  /** The native call's error is rethrown as it is. */
  lemma NativeErrorRethrown(options: Options, message: string)
    ensures Reshape(options, NativeRejected(message)) == Err(NativeError(message))
  {
  }

  /** A native result without "base64" (such as the iOS one) makes the wrapper fail with a TypeError. */
  lemma MissingBase64Fails(options: Options)
    ensures Reshape(options, NativeResolved(None)) == Err(TypeError)
  {
  }

  /** `base64ToUint8Array`: `atob`, then a fresh array filled index by index with the char codes. */
  method Base64ToUint8Array(base64: string) returns (r: Result<array<byte>, JsError>)
    ensures r.Err? <==> Base64.ForgivingDecode(base64).None?
    ensures r.Err? ==> r.error == InvalidCharacterError
    ensures r.Ok? ==> fresh(r.value) && r.value[..] == Base64.ForgivingDecode(base64).value
  {
    var binaryString := Atob(base64);
    if binaryString.Err? {
      return Err(binaryString.error);
    }
    var s := binaryString.value;
    var length := |s|;
    var byteArray := new byte[length];
    for i := 0 to length
      invariant forall j :: 0 <= j < i ==> byteArray[j] == ToUint8(s[j] as int)
    {
      byteArray[i] := ToUint8(s[i] as int);
    }
    assert byteArray[..] == CharCodes(s);
    CharCodesOfBinaryString(Base64.ForgivingDecode(base64).value);
    return Ok(byteArray);
  }

  /** `processFile`: settles as `Reshape` says, with the byte array in a fresh array. */
  method ProcessFile(options: Options, native: NativeOutcome) returns (r: Result<WebResult<array<byte>>, JsError>)
    ensures var spec := Reshape(options, native);
            (r.Ok? <==> spec.Ok?)
            && (r.Err? ==> r.error == spec.error)
            && (r.Ok? ==>
                  fresh(r.value.byteArray) && r.value.byteArray[..] == spec.value.byteArray
                  && r.value.base64 == spec.value.base64 && r.value.size == spec.value.size
                  && r.value.fileType == spec.value.fileType && r.value.fileName == spec.value.fileName)
  {
    if native.NativeRejected? {
      return Err(NativeError(native.message));
    }
    if native.base64.None? {
      return Err(TypeError);
    }
    var base64 := native.base64.value;
    var size := SizeEstimate(base64);
    var byteArray := Base64ToUint8Array(base64);
    if byteArray.Err? {
      return Err(byteArray.error);
    }
    CharCodesOfBinaryString(Base64.ForgivingDecode(base64).value);
    return Ok(WebResult(base64, size, options.fileType, options.name, byteArray.value));
  }
}

/**
 * What both native `processFile` handlers share: the three options of the
 * call and the messages for the checks made before any file is touched.
 */
module PluginCall {
  import opened Common

  /** The options of a call; None is an option that is missing or not a string. */
  datatype Call = Call(filePath: Option<string>, fileType: Option<string>, name: Option<string>)

  predicate HasAllOptions(call: Call)
  {
    call.filePath.Some? && call.fileType.Some? && call.name.Some?
  }

  const FileScheme: string := "file://"
  const RequiredMessage: string := "File path, type, and name are required"
  const NotFoundPrefix: string := "File does not exist at path: "
}

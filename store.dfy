/** The version file `version.ts`: what reading it yields
    (`getCurrentVersionAsync`) and what saving a version writes
    (`saveVersionAsync`). The file system itself is a parameter: a read is
    given by its outcome, a save is returned as the write it would make. */
module Store {
  import opened Failures
  import opened Versions
  import opened Codec

  const FileName: string := "version.ts"

  /** How reading the file ended. */
  datatype ReadOutcome =
    | NotFound               // the file does not exist
    | Failed(reason: string) // any other file-system error
    | Contents(text: string) // the file's whole text

  /** A file write: the path and its new contents. */
  datatype FileWrite = FileWrite(path: string, contents: string)

  /** No file means no version yet; any other read error is rethrown as it
      is; readable text must be a valid artifact. */
  function GetCurrentVersion(read: ReadOutcome): Result<Option<Version>> {
    match read
    case NotFound => Ok(None)
    case Failed(reason) => Err(ReadFailed(reason))
    case Contents(text) =>
      match TypeScriptToVersion(text)
      case Ok(v) => Ok(Some(v))
      case Err(e) => Err(e)
  }

  /** Saving overwrites `version.ts` with the encoded version, and reading
      that text back gives the saved version. */
  function SaveVersion(v: Version): (w: FileWrite)
    ensures w.path == FileName
    ensures GetCurrentVersion(Contents(w.contents)) == Ok(Some(v))
  {
    DecodeEncode(v);
    FileWrite(FileName, VersionToTypeScript(v))
  }

  /** The three ways a read can end, and what each yields: absence is not
      an error, other read errors pass through unchanged, malformed text is
      an invalid artifact, and a version is only returned for a file whose
      whole text is that version's encoding. */
  lemma GetCurrentVersionOutcomes(read: ReadOutcome)
    ensures GetCurrentVersion(read) == Ok(None) <==> read == NotFound
    ensures read.Failed? ==> GetCurrentVersion(read) == Err(ReadFailed(read.reason))
    ensures read.Contents? && GetCurrentVersion(read).Err? ==>
      GetCurrentVersion(read) == Err(InvalidTypeScript(read.text))
    ensures GetCurrentVersion(read).Ok? && GetCurrentVersion(read).value.Some? ==>
      read == Contents(VersionToTypeScript(GetCurrentVersion(read).value.value))
  {
    if read.Contents? {
      DecodeExact(read.text);
      DecodeRejects(read.text);
    }
  }
}

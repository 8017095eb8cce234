/** The message resolver: the message argument is either the text to send or the
    path of a `.txt`/`.md` file whose contents are the text to send. */
module Message {
  import opened Results
  import opened Text
  import opened Paths

  /** Reading the message file failed; `cause` is the reader's explanation. */
  datatype MessageError = MessageFileReadError(cause: string)

  /** The suffixes, after lowercasing, that make an existing file a message file. */
  const TextSuffixes: seq<string> := [".txt", ".md"]

  /** `arg` names an existing file whose lowercased suffix marks it as a message file. */
  predicate IsMessageFile(arg: string, isFile: string -> bool) {
    isFile(arg) && Lower(Suffix(arg)) in TextSuffixes
  }

  /** The message text for argument `arg`. The file system enters as `isFile`, the
      test for an existing regular file, and `read`, which yields a file's full
      UTF-8 text or the reason it could not be read. */
  function Resolve(arg: string, isFile: string -> bool, read: string -> Result<string, string>)
    : (r: Result<string, MessageError>)
    ensures arg == [] ==> r == Ok([])
    ensures r.Err? <==> arg != [] && IsMessageFile(arg, isFile) && read(arg).Err?
    ensures r.Err? ==> r.error == MessageFileReadError(read(arg).error)
    ensures r.Ok? && r.value != arg ==> IsMessageFile(arg, isFile) && read(arg) == Ok(r.value)
    ensures arg != [] && IsMessageFile(arg, isFile) && read(arg).Ok? ==> r == Ok(read(arg).value)
  {
    if arg == [] then Ok([])
    else if IsMessageFile(arg, isFile) then
      match read(arg)
      case Ok(content) => Ok(content)
      case Err(cause) => Err(MessageFileReadError(cause))
    else Ok(arg)
  }

  /** Every argument that does not name an existing message file is the message
      itself: a nonexistent `.txt` path and an existing file of another kind included. */
  lemma ResolveVerbatim(arg: string, isFile: string -> bool, read: string -> Result<string, string>)
    requires !IsMessageFile(arg, isFile)
    ensures Resolve(arg, isFile, read) == Ok(arg)
  {
  }

  /** An existing file with no extension, such as `notes`, is not a message file: its
      name is sent as the message. */
  lemma NoExtensionIsVerbatim(arg: string, isFile: string -> bool, read: string -> Result<string, string>)
    requires forall k :: 0 < k < |FinalComponent(arg)| - 1 ==> FinalComponent(arg)[k] != '.'
    ensures Resolve(arg, isFile, read) == Ok(arg)
  {
  }

  /** The file test ignores the case of the suffix: `NOTE.TXT` is a message file as
      `note.txt` is, when both exist. */
  lemma MessageFileIgnoresCase(arg: string, isFile: string -> bool)
    requires isFile(arg)
    ensures IsMessageFile(arg, isFile) <==> Suffix(Lower(arg)) in TextSuffixes
  {
    SuffixLower(arg);
  }

  /** An existing file whose name ends in `.txt` or `.md`, in any capitalisation and
      in any directory, is a message file. */
  lemma MessageFileOfName(stem: string, ext: string, isFile: string -> bool)
    requires stem != [] && stem[|stem| - 1] != '/'
    requires Lower(ext) in TextSuffixes
    requires isFile(stem + ext)
    ensures IsMessageFile(stem + ext, isFile)
  {
    assert IsSuffixText(ext) && '/' !in ext by {
      LowerSuffixText(ext);
    }
    SuffixOfName(stem, ext);
  }
}

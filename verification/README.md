# telegram_send — a Dafny model of its decision logic

`telegram_send.py` is a command-line tool that sends a text message and/or file
attachments to a Telegram recipient through the pyrogram client. Around the network
calls it makes four decisions, and this project models them as pure Dafny functions
and proves what they promise:

- **Configuration** (`config.dfy`): `telegram_send_config.ini` is read as flat
  `key=value` lines. Blank lines, `#` comments and lines without `=` are skipped. A line
  is split at its first `=` and both halves are stripped. A later line overrides an
  earlier one. `api_id` and then `api_hash` must be present.
- **Message resolution** (`message.dfy`): the message argument is either literal text
  or, when it names an existing `.txt`/`.md` file (suffix case ignored), that file's
  contents. A failed read is an error.
- **Attachment classification** (`media.dfy`): the lowercased suffix picks photo, video,
  audio, voice or document through a first-match-wins chain, so `.ogg` is always audio.
- **Dispatch** (`dispatch.dfy`, `cli.dfy`): the ordered trace of sends a run performs.
  Missing attachments are skipped. The message becomes the caption of the first
  attachment actually sent and of no other. With no attachments the message is sent as
  text, or the run fails when it is empty. The argument guard rejects an empty message
  argument with no attachments before anything else happens.

Supporting modules: `results.dfy` (`Option`, `Result`), `text.dfy` (Python's
`str.strip`, `str.lower`, `str.find`/`rfind`, `split(sep, 1)`) and `paths.dfy`
(`pathlib.Path(p).suffix`).

The file system enters as parameters: `isFile` (`os.path.isfile`), `present`
(`os.path.exists`), `read` (reading a file as UTF-8, or the reason it failed) and the
configuration file as the sequence of lines its iterator yields, or `None` when it
does not exist. Each call into the messaging client is one `Action` of the trace.

## Model

| member | source | states |
|---|---|---|
| Text.Strip | telegram_send.py:32 | The stripped line is a slice of the input that neither starts nor ends with whitespace, and only whitespace was cut from either end. |
| Text.StripOf | telegram_send.py:32 | Any whitespace wrapped around a stripped text is exactly what stripping removes, so stripping is determined by its result. |
| Text.StripStripped | telegram_send.py:35 | A text with no whitespace at either end is left unchanged by stripping. |
| Text.IndexOf | telegram_send.py:34 | The first position holding the separator, with no earlier occurrence; absent exactly when the separator does not occur. |
| Text.SplitAtFirst | telegram_send.py:34 | `split('=', 1)`: the line is the part before the first `=`, the `=`, and the rest; the first part contains no `=`; no split happens exactly when `=` is absent. |
| Text.SplitAtFirstJoin | telegram_send.py:34 | Splitting `a + "=" + b` at the first `=` gives back `a` and `b` whenever `a` has no `=`, even when `b` contains `=`. |
| Text.LastIndexOf | telegram_send.py:51 | The last position holding a character, with none after it; absent exactly when the character does not occur (the search behind `Path.suffix`). |
| Text.Lower | telegram_send.py:51 | The modelled `.lower()` keeps the length; its effect on one character is `Text.LowerCharFixes` and on slices `Text.LowerSlice`. |
| Text.LastIndexOfLower | telegram_send.py:87 | With the modelled lowering (`Text.Lower`, which keeps every position), the last `.` or `/` of a string stays where it was. |
| Paths.TrimTrailingSlashes | telegram_send.py:86 | The path without its trailing separators is a prefix of it, does not end in `/`, and only `/` was removed. |
| Paths.FinalComponent | telegram_send.py:86-87 | The final path component contains no separator, is the tail of the path once trailing separators are dropped, and reaches back to the last `/` before it (or to the start). |
| Paths.NameSuffix | telegram_send.py:87 | A component's suffix is empty or a dot, at least one character and no further dot, and is a proper tail of the component. |
| Paths.Suffix | telegram_send.py:51 | `Path(p).suffix` is empty or a dot followed by at least one character, with no further dot and no separator; when non-empty it ends the final component and is shorter than it. |
| Paths.SuffixEmpty | telegram_send.py:51 | A final component with no `.` strictly inside it (`Makefile`, `.ogg`, `notes.`) has the empty suffix. |
| Paths.NameSuffixOf | telegram_send.py:87 | On one component, a non-empty stem followed by a well-formed extension has exactly that extension as suffix. |
| Paths.SuffixOfName | telegram_send.py:87 | A path ending in a non-empty stem and a well-formed extension has exactly that extension as its suffix. |
| Paths.SuffixLower | telegram_send.py:87 | With the modelled lowering (`Text.Lower`), taking the suffix commutes with lowering the path. |
| Paths.LowerSuffixText | telegram_send.py:87 | With the modelled lowering, an extension is well formed exactly when its lowercase form is. |
| Media.KindOfSuffix | telegram_send.py:91-105 | The first-match chain on a lowercased suffix; what it chooses is stated by `Media.KindOfSuffixIsTable` and `Media.KindOfSuffixExact`. |
| Media.Classify | telegram_send.py:86-105 | An attachment's kind is the one the suffix table lists for its lowercased suffix, or document when the table has none. |
| Media.KindOfSuffixIsTable | telegram_send.py:91-105 | The first-match chain is the table: each of the 17 distinct listed suffixes maps to one kind, `.ogg` to audio, anything else to document. |
| Media.KindOfSuffixExact | telegram_send.py:91-105 | Photo, video and audio are chosen exactly for the suffixes in their lists; voice exactly for `.opus`; document exactly for suffixes in no list. |
| Media.ClassifyByExtension | telegram_send.py:86-87 | An attachment is classified by its extension alone, lowercased, whatever directory and stem precede it. |
| Media.OggIsAudio | telegram_send.py:97-100 | A file whose name is a non-empty stem followed by `.ogg`, in any capitalisation, is sent as audio, never as voice. |
| Media.OpusIsVoice | telegram_send.py:100-102 | A file whose name is a non-empty stem followed by `.opus`, in any capitalisation, is sent as voice. |
| Media.NoExtensionIsDocument | telegram_send.py:103-105 | An attachment with no extension (no `.` strictly inside its final component) is sent as a document. |
| Media.ClassifyIgnoresCase | telegram_send.py:87 | Two paths that agree once lowercased are classified alike. |
| Message.IsMessageFile | telegram_send.py:50-52 | An existing file whose lowercased suffix is `.txt` or `.md`; see `Message.MessageFileOfName`, `Message.NoExtensionIsVerbatim` and `Message.MessageFileIgnoresCase`. |
| Message.Resolve | telegram_send.py:46-62 | An empty argument gives empty text; an existing `.txt`/`.md` file gives its contents, or the read error; any other argument comes back verbatim. |
| Message.ResolveVerbatim | telegram_send.py:50-62 | An argument that is not an existing message file, such as a nonexistent `.txt` path or an existing `.pdf`, is the message itself. |
| Message.NoExtensionIsVerbatim | telegram_send.py:50-52 | An argument with no extension, such as an existing file `notes`, is the message itself, not a file to read. |
| Message.MessageFileIgnoresCase | telegram_send.py:51-52 | For an existing file, being a message file depends only on the lowercased path. |
| Message.MessageFileOfName | telegram_send.py:50-52 | An existing file whose name is a non-empty stem followed by `.txt` or `.md`, in any capitalisation and any directory, is a message file. |
| Config.ParseLine | telegram_send.py:32-35 | A line yields an entry exactly when, stripped, it is non-empty, does not start with `#` and contains `=`; the entry is the stripped text before the first `=` and the stripped rest. |
| Config.ParseLineOfEntry | telegram_send.py:31-35 | A line `key=value` surrounded by any whitespace reads back as exactly that entry, the value keeping any `=` it contains. |
| Config.Parse | telegram_send.py:29-35 | The parsed configuration holds exactly the keys some line defines, each with the value of the last line defining it. |
| Config.LastDefinition | telegram_send.py:35 | Reading backwards, the value of the last entry for a key; absent exactly when no entry defines the key. |
| Config.FoldSnoc | telegram_send.py:31-35 | Reading one more line applies that line's entry to what the earlier lines produced. |
| Config.FoldIsLastDefinition | telegram_send.py:31-35 | The reading loop holds a key exactly when some entry defines it, with the value of the last such entry. |
| Config.ParseIsLastDefinition | telegram_send.py:29-35 | The parsed configuration maps each key to the value of its last defining line, later lines winning, and holds no other key. |
| Config.ParseAppend | telegram_send.py:33-35 | One more line changes only the entry of the key it defines; a blank, comment or `=`-less line changes nothing. |
| Config.FirstMissing | telegram_send.py:37-41 | The first required key, in list order, that the configuration lacks, all earlier ones being present; none exactly when all are present. |
| Config.CheckRequired | telegram_send.py:37-43 | Validation succeeds exactly when `api_id` and `api_hash` are both present and then returns the configuration unchanged; `api_id` is reported first. |
| Config.Load | telegram_send.py:20-43 | A missing file is `ConfigNotFound`; a loaded configuration holds both required keys; a missing-key error names a required key that no line defines. |
| Config.LoadReportsFirstMissing | telegram_send.py:37-41 | Loading an existing file reports `api_id` when no line defines it, whatever `api_hash` is, and `api_hash` only when `api_id` is defined. |
| Dispatch.CaptionOf | telegram_send.py:89 | The caption a send carries: none for an empty message; how it is used up is `Dispatch.SendAttachmentsCaption`. |
| Dispatch.SendAttachments | telegram_send.py:81-107 | One action per attachment, in input order: a skip exactly when the file does not exist, otherwise a send of its classified kind. |
| Dispatch.Plan | telegram_send.py:80-116 | A run fails exactly when both the message and the attachments are empty; text alone is one text send; with attachments every one gets a send or a skip, in order. |
| Dispatch.SendAttachmentsCaption | telegram_send.py:82-107 | A sent attachment carries the pending message as caption exactly when no earlier attachment exists; skipped files do not use it up. |
| Dispatch.PlanCaption | telegram_send.py:81-107 | In a run, the first existing attachment gets the message as caption (none if empty); every later sent one gets none. |
| Dispatch.PlanCaptionUsedOnce | telegram_send.py:89-107 | At most one send in a run carries a caption, and that caption is the message. |
| Dispatch.PlanDeliversMessage | telegram_send.py:89-107 | A non-empty message is sent as the caption of the first attachment that exists. |
| Dispatch.PlanAllMissing | telegram_send.py:80-116 | When no attachment exists the run still succeeds with only skips: no file and no message is sent. |
| Cli.GuardRejects | telegram_send.py:175-176 | The guard rejects exactly an empty raw message argument with no attachments; see `Cli.Run` and `Cli.EmptyMessageFilePassesGuard`. |
| Cli.Run | telegram_send.py:175-181 | Only an empty message argument with no attachments is a usage error; a message error precedes a configuration error; a successful run had a valid configuration; nothing-to-send happens exactly for an empty resolved message with no attachments. |
| Cli.RunErrorIsCause | telegram_send.py:175-181 | A failed run reports the very error that ended it: the resolver's error with its cause, the loader's error (missing file or which key), or the dispatch error. |
| Cli.EmptyMessageFilePassesGuard | telegram_send.py:175-178 | An empty `.txt`/`.md` message file with no attachments passes the guard and the run fails later with nothing to send. |
| Cli.TextOnlyRun | telegram_send.py:108-111 | With no attachments and non-empty resolved text, a run sends exactly that text, once. |

## Left out

- The pyrogram client: opening and closing the session, the `send_*` calls and their
  failures (`RPCError` and any other exception ending the run). Every send is modelled
  as one trace action that succeeds; a failing send stopping the run is not modelled.
- The recipient argument. It is passed unchanged to every send, so the actions do not
  carry it.
- Finding the configuration and session files beside the executable (`get_base_path`).
  The configuration arrives as its lines, or `None` when it is absent.
- Turning the file's bytes into lines: the locale encoding, universal newlines and a
  read error on the configuration file itself.
- The conversion of `api_id` to an integer. Both required values are opaque strings.
- Console output, the exact exit codes and argparse. Success and the kind of error are
  modelled; the printed text is not.
- Text.LowerChar: lowercasing maps `A`-`Z` and the Kelvin sign, the only characters
  whose lower case is ASCII. Other Unicode lowercasing never changes whether a suffix is
  one of the listed ones, so it is not modelled.
- Text.Lower: the model lowers character by character and keeps the length. Python's
  `str.lower()` does not always: `İ` becomes two code points and a final `Σ` becomes `ς`.
  The source lowers only the suffix, never a whole path, so this does not affect the
  classifier. The lemmas about lowering a path hold for the model's lowering only.
- Paths.Suffix: the final component is the text after the last `/` once trailing `/`
  are dropped. `.` components, `\` separators and the newer-Python rule that makes a
  lone trailing dot a suffix are not modelled.
- Message.Resolve: `read` may fail for any reason, undecodable UTF-8 among them. Only
  the failure's message is kept.
- Dispatch.SendAttachments: `present` is `os.path.exists`, which also holds for
  directories. Sending a directory is a client failure and is not modelled.
- `build.py`, the PyInstaller packaging script, which has no decision logic.

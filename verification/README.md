# pyp5 restore core in Dafny

pyp5 reads editing metadata (Avid ALE tables, CMX-style EDL event lists, AAF
containers). It extracts the names of the source media and drives an Archiware P5
server through its `nsdchat` command line to restore those files. This project
models the part of pyp5 with real control flow and proves properties of the model:

- **Parsers** (`parsers.dfy`): `parse_ale` and `parse_edl` over the list of lines
  `readlines()` returns. Each returns a `Result`. The `["ERROR", msg]` list of the
  source is the `Err` case.
- **ArchiveClient** (`archive_client.dfy`): the `nsdchat` wrappers as pure argv
  builders, with a reader that inverts them. Also the whitespace trimming that
  `submit_restore`, `describe` and `destroy` apply to their replies.
- **RestoreCli** (`restore_cli.dfy`): `main` of `pyp5_cli.py` as a pure function.
  - The P5 server is an oracle: it maps the events so far and a command to the
    decoded reply. Replies can therefore depend on earlier commands, as a
    stateful server's do.
  - `Main` returns the exit code, the trace of events (archive commands and mails,
    in order) and one outcome per file.
  - `PlacementOf` turns an outcome into the file's fate: moved to `failed/`, moved
    to `../finished`, or left in place.
- **Text** and **Order** (`text.dfy`, `order.dfy`): the Python built-ins the core
  relies on. These are `in` on strings, `split(sep)`, `split()`, `strip()`,
  `strip("\n")`, string comparison and `sorted`.
- **Dicts** (`dicts.dfy`): Python's `dict` from `str` to `str` as a list of entries in
  insertion order, with reading and assignment.
- **Results** (`results.dfy`): `Result` and `Option`.

## Behaviour of pyp5 that the model keeps as written

- **Connection check.** `check_p5_connection` returns the server's reply on
  success, which is the host name. `main` treats any non-empty return as fatal. As
  written, a reachable server therefore ends the run with exit code 1. Only an
  empty reply lets the file loop run (`Main`, `MainConnectionFatal`).
- **When the connection is checked.** The check runs once, after the file list is
  built and only when that list is non-empty. It does not run per file: no later event
  of the trace is a connection check (`Main`).
- **Calls never made.** `main` never calls `describe`, `destroy` or `get_barcode`.
  The trace properties state that no describe or destroy is ever issued.
- **Archive ID sentinel.** `read_conf` reports a failure as the archive ID `ERROR`,
  and `main` tests only that field. So a configuration file whose archive ID really
  is `ERROR` is also treated as a failed read, with exit code 1 (`ArchiveIdSentinel`).
- **Sentinel test.** `main` tests the Python list (`search_items[0] == "ERROR"`),
  not a separate error flag. So an ALE whose first item is the text `ERROR` is
  handled as a failed parse, with its second item as the reason
  (`SentinelCollision`).
- **Parser dispatch.** The parser is chosen by `file.split(".")[1]` on the whole
  path.
  - `clip.ALE` passes the case-insensitive glob but goes to the AAF parser
    (`UpperCaseAleReadAsAaf`).
  - In general, cut at the path's first dot, a file goes to `parse_ale` exactly when
    the text after that dot is `ale` followed by the end or another dot (`ReadAsAleIff`).
  - With exactly one dot in the application directory, every file goes to the AAF
    parser, whatever its name (`DottedDirectoryReadsAsAaf`).
  - With two or more dots in it, the part between the directory's first two dots
    decides for every file. Under `/srv/x.ale.d` every file, `.aaf` included, goes to
    `parse_ale` (`DirectoryPartDecides`).
- **Entry count.** The entry check only rejects an empty reply or `"0"`. Any other
  text counts as entries.
- **Volume check.** The volume check tests the raw reply before stripping. A reply
  of `"\n"` passes, then splits into one empty volume name.

## Model

| member | source | states |
|---|---|---|
| Text.Contains | pyp5/pyp5.py:27 | `sub in s` holds exactly when `sub` occurs at some position of `s` |
| Text.Split | pyp5/pyp5.py:29 | `s.split(sep)` yields at least one piece; no piece contains `sep`; there are two or more pieces exactly when `sep` occurs in `s` |
| Text.JoinSplit | pyp5/pyp5.py:41 | joining the pieces of `split(sep)` with `sep` gives back the original string |
| Text.SplitJoin | pyp5/pyp5_cli.py:162 | splitting a join of sep-free pieces gives back exactly those pieces |
| Text.FirstPiece | pyp5/pyp5_cli.py:109 | the first piece of `split(sep)` is `p` exactly when `p` is the whole text or is followed in it by the separator |
| Text.SplitWs | pyp5/pyp5.py:76 | `split()` yields non-empty tokens without whitespace; a string that starts with a non-space starts its first token |
| Text.SplitWsLength | pyp5/pyp5.py:76 | `split()` never yields more tokens than the string has characters |
| Text.SplitWsJoin | pyp5/pyp5.py:76 | `split()` on tokens joined by single spaces gives back those tokens |
| Text.SplitWsBlank | pyp5/pyp5.py:76 | `split()` of whitespace alone yields no token |
| Text.SplitWsToken | pyp5/pyp5.py:76 | `split()` of a non-empty run free of whitespace yields that run as the one token |
| Text.SplitWsSeparates | pyp5/pyp5.py:76 | a non-empty run of whitespace separates: the tokens of `a + w + b` are those of `a` followed by those of `b`; with the two laws above this fixes `split()` as the maximal non-whitespace runs in order |
| Text.Strip | pyp5/pyp5.py:41 | `strip(chars)` returns a contiguous slice of the input that neither starts nor ends with a stripped character, with only stripped characters cut on either side |
| Text.StripKeepsAbsent | pyp5/pyp5.py:41 | stripping never introduces a character that was not in its input |
| Text.StripEmpty | pyp5/pyp5.py:142-146 | stripping yields the empty string exactly when the input consists only of stripped characters |
| Text.StripIdempotent | pyp5/pyp5.py:41 | stripping twice is the same as stripping once |
| Order.Insert | pyp5/pyp5_cli.py:167 | inserting into a sorted list keeps it sorted and adds exactly that element |
| Order.Sort | pyp5/pyp5_cli.py:167 | `sorted` returns an ascending permutation of its input |
| Order.SortedUnique | pyp5/pyp5_cli.py:167 | two ascending lists with the same elements are equal, so the label order is fully determined by the volume reply |
| Order.SortCharacterized | pyp5/pyp5_cli.py:167 | `Sort` equals every ascending permutation of its input |
| Order.LeqTotal | pyp5/pyp5_cli.py:167 | Python string comparison is total |
| Order.LeqTransitive | pyp5/pyp5_cli.py:167 | Python string comparison is transitive |
| Order.LeqAntisymmetric | pyp5/pyp5_cli.py:167 | strings that compare both ways are equal |
| Order.LeqIff | pyp5/pyp5_cli.py:167 | Python's `a <= b` on strings holds exactly when `a` is a prefix of `b` or, at the first position where they differ, `a` has the smaller code point |
| Parsers.FirstDataFrom | pyp5/pyp5.py:32-35 | finds the first line at or after a position that contains `Data`, or reports that none does |
| Parsers.FirstSourceColumn | pyp5/pyp5.py:29-31 | the `enumerate` loop stops at the first column containing `Source File`, or runs out at the last column |
| Parsers.ScanLines | pyp5/pyp5.py:26-35 | the scan ends in the data state, with the data start one past the first `Data` line, exactly when such a line exists |
| Parsers.LastColumnLine | pyp5/pyp5.py:27-31 | finds the last `Column` line before a given line, or reports that there is none |
| Parsers.ScanAleIndex | pyp5/pyp5.py:26-35 | the column index the scan uses is the `Source File` column of the line after the last `Column` line before `Data`, the last column if none matches, and 0 without a `Column` line |
| Parsers.Field | pyp5/pyp5.py:41 | an emitted item contains no tab and neither starts nor ends with a newline |
| Parsers.ParseAle | pyp5/pyp5.py:37-43 | `parse_ale` fails only with `No search items found.`; a success is never an empty list |
| Parsers.ParseAleFile | pyp5/pyp5.py:18-22 | an unreadable file yields the I/O error text unchanged |
| Parsers.ParseAleNoData | pyp5/pyp5.py:32-38 | with no `Data` line the result is the error, never a partial list |
| Parsers.ParseAleDataLast | pyp5/pyp5.py:34-38 | when the first `Data` line is the last line the result is the error |
| Parsers.ParseAleRows | pyp5/pyp5.py:32-43 | on success there is one item per line after the first `Data` line, in row order, each the selected field of its row |
| Parsers.ParseAleOkIff | pyp5/pyp5.py:37-38 | `parse_ale` succeeds exactly when a `Data` line exists and is not the last line |
| Parsers.ParseEdl | pyp5/pyp5.py:74-78 | `parse_edl` yields at most one item per line, each non-empty and free of whitespace |
| Parsers.ParseEdlFile | pyp5/pyp5.py:68-72 | an unreadable EDL yields the I/O error text; a readable one always parses |
| Parsers.EventLineTwoDigits | pyp5/pyp5.py:75 | `line[:2].isdigit()` holds exactly when the first two characters are both digits |
| Parsers.EventIndices | pyp5/pyp5.py:74-75 | lists, in ascending order, every line whose first two characters are digits and no other |
| Parsers.ParseEdlByEventLines | pyp5/pyp5.py:74-78 | the output is, in line order, the second token of each qualifying line, one item per qualifying line |
| Parsers.ParseEdlAppend | pyp5/pyp5.py:74-78 | parsing a concatenation of line lists concatenates the results, since lines are judged one by one |
| Parsers.ParseEdlSnoc | pyp5/pyp5.py:74-78 | appending a line appends its token exactly when it qualifies |
| Parsers.ParseEdlSingle | pyp5/pyp5.py:75-76 | a single line yields its second token when it qualifies and nothing otherwise |
| ArchiveClient.Argv | pyp5/pyp5.py:84-176 | every command line is the `nsdchat` prefix, then `-c`, then the command words; a find-entry ends with `{name *= '<item>'}` with the item pasted unescaped |
| ArchiveClient.UnwrapNameFilter | pyp5/pyp5.py:116 | the item can be read back out of the find-entry filter |
| ArchiveClient.ParseArgvRoundTrip | pyp5/pyp5.py:89-176 | reading a built command line gives back the command it was built from |
| ArchiveClient.ParseWordsRoundTrip | pyp5/pyp5.py:89-176 | the words after `-c` read back as the command they were built from |
| ArchiveClient.ArgvOfParse | pyp5/pyp5.py:89-176 | a command line that reads as a command is exactly the line built for it |
| ArchiveClient.ArgvInjective | pyp5/pyp5.py:89-176 | distinct commands never share a command line |
| ArchiveClient.WrapperReply | pyp5/pyp5.py:139-166 | `submit_restore`, `describe` and `destroy` return the reply stripped of surrounding whitespace, so a blank reply becomes the empty failure value; the other wrappers return the reply unchanged |
| RestoreCli.Glob | pyp5/pyp5_cli.py:92-94 | the glob returns exactly the listing entries that are not hidden and end in a dot and the extension, each letter in either case, and never more entries than the listing has |
| RestoreCli.BatchFiles | pyp5/pyp5_cli.py:92-94 | the batch is exactly the listing entries that either glob admits, and it never holds more files than the listing has entries, since no name passes both globs |
| RestoreCli.ReadAsAleIff | pyp5/pyp5_cli.py:109 | cut at its first dot, a path goes to `parse_ale` exactly when the text after that dot is `ale` followed by the end or by another dot |
| RestoreCli.ParserListSentinel | pyp5/pyp5_cli.py:114-115 | for a parser result with at least one item, `main`'s test `search_items[0] == "ERROR"` fires exactly when the parse failed or its first item is the text `ERROR`; a failure's second entry is its message, and a list that passes the test is the parsed items |
| RestoreCli.DispatchByExtension | pyp5/pyp5_cli.py:109-112 | with no dot in the directory or the stem, a file goes to `parse_ale` exactly when its extension is lower-case `ale` |
| RestoreCli.UpperCaseAleReadAsAaf | pyp5/pyp5_cli.py:92-112 | `clip.ALE` is listed by the ALE glob yet dispatched to the AAF parser |
| RestoreCli.DottedDirectoryReadsAsAaf | pyp5/pyp5_cli.py:109 | with exactly one dot in the application directory, no file is dispatched to `parse_ale`, whatever its name |
| RestoreCli.DirectoryPartDecides | pyp5/pyp5_cli.py:109 | with two or more dots in the application directory, every file goes to `parse_ale` exactly when the part between the directory's first two dots is `ale`, whatever the file's name |
| RestoreCli.ProcessFile | pyp5/pyp5_cli.py:108-117 | a file is a parse failure exactly when its list starts with `ERROR`; it is then moved to `failed/` with the second entry as reason and no command is issued for it; otherwise its events start with creating a selection; nothing is ever described or destroyed, and the connection is not checked again; a dry run never submits or moves a file to `finished` |
| RestoreCli.ProcessFilePlacement | pyp5/pyp5_cli.py:114-191 | a file is moved to `failed/` exactly when its list starts with `ERROR`, and to `../finished` exactly when it parsed, the selection was created, holds entries and has volumes, the run is not dry and the submit's reply is not all whitespace; every other file stays in place |
| RestoreCli.SentinelCollision | pyp5/pyp5_cli.py:114-117 | an ALE parse that succeeds with first item `ERROR` is still handled as a failed parse |
| RestoreCli.SearchItems | pyp5/pyp5_cli.py:133-139 | the item loop prints exactly one reply per item and logs no more misses than there are items |
| RestoreCli.SearchReplyAt | pyp5/pyp5_cli.py:133-137 | the reply for the k-th item is the server's answer to its find-entry, sent after the finds for all earlier items |
| RestoreCli.SearchMissLogged | pyp5/pyp5_cli.py:138-139 | an item answered with `"0"` or nothing is logged as not found |
| RestoreCli.SearchMissFound | pyp5/pyp5_cli.py:138-139 | only items answered with `"0"` or nothing are logged as not found |
| RestoreCli.QuoteInjective | pyp5/pyp5_cli.py:169 | distinct volumes get distinct quoted keys |
| Dicts.Lookup | pyp5/pyp5_cli.py:169 | reading a dict finds a value exactly for the keys it holds, and that value is stored under the key |
| Dicts.Put | pyp5/pyp5_cli.py:169 | dict assignment adds at most one entry |
| Dicts.PutLookup | pyp5/pyp5_cli.py:169 | after `d[k] = v`, reading `d[k]` gives `v` |
| Dicts.PutLookupOther | pyp5/pyp5_cli.py:169 | `d[k] = v` leaves every other key's value unchanged |
| Dicts.PutKeys | pyp5/pyp5_cli.py:169 | `d[k] = v` adds `k` to the keys and no other key |
| Dicts.PutFresh | pyp5/pyp5_cli.py:169 | a new key is appended at the end, so the dict keeps insertion order |
| Dicts.PutDistinct | pyp5/pyp5_cli.py:169 | assignment never creates a second entry for a key |
| RestoreCli.FetchLabels | pyp5/pyp5_cli.py:167-170 | the label loop adds at most one entry per volume queried |
| RestoreCli.FetchLabelsKeys | pyp5/pyp5_cli.py:165-170 | the dict ends with exactly one key per distinct queried volume, each key quoted |
| RestoreCli.FetchLabelsInOrder | pyp5/pyp5_cli.py:165-170 | with no repeated volume, the dict lists the volumes in query order, each with the quoted label the server gave for it after the queries before it |
| RestoreCli.RestoreFile | pyp5/pyp5_cli.py:119-191 | a parsed file's events start with creating a selection; the outcome is `NoSelection` exactly when the stripped create reply is empty; a submitted job has a non-empty ID |
| RestoreCli.RestoreFileNoSelection | pyp5/pyp5_cli.py:119-123 | with no selection ID, only the error is queried: no find-entry, entries, volumes or submit command is issued, and the file stays in place |
| RestoreCli.RestoreFileShape | pyp5/pyp5_cli.py:119-191 | once a selection exists, a file's events are its creation, then queries on it, then at most a submit and a mail |
| RestoreCli.RestoreFileTrace | pyp5/pyp5_cli.py:119-191 | a selection is created once per file and first; every later selection command names that selection; nothing is described or destroyed and the connection is not checked; a submit is issued exactly when the outcome is a submit result, and never in a dry run |
| RestoreCli.RestoreFileSearchOrder | pyp5/pyp5_cli.py:133-136 | right after creation, find-entry is issued once per item, in item order, against the new selection |
| RestoreCli.RestoreFileOutcome | pyp5/pyp5_cli.py:141-181 | no entries (empty or `"0"`) and no volumes each end the file without a submit; a submit is attempted exactly when the selection exists, holds entries, the volume reply is not empty and the run is not dry; it fails exactly when its reply is blank |
| RestoreCli.RestoreFileLabelOrder | pyp5/pyp5_cli.py:156-168 | after the volume query, one label query is issued per listed volume, in ascending order, and the volumes queried are a permutation of those listed |
| RestoreCli.SubmitOutcome | pyp5/pyp5_cli.py:172-183 | a dry run ends after the labels; otherwise the submit fails exactly when the server's reply to it is all whitespace, and a submitted job carries that reply with the whitespace stripped from both ends, non-empty, and the label dict |
| RestoreCli.VolumesNeeded | pyp5/pyp5_cli.py:162-167 | the label loop walks the space-separated names of the newline-stripped volume reply in ascending order, as a permutation of them; a reply of newlines only gives one empty name |
| RestoreCli.VolumesMessage | pyp5/pyp5_cli.py:186 | the started mail's body opens with `Volumes needed for restore:` and a newline |
| RestoreCli.VolumesMessageSnoc | pyp5/pyp5_cli.py:186-188 | each dict entry adds its `key: value` line at the end of the body, so the body is what the `message +=` loop accumulates over `volumes.items()` in order |
| RestoreCli.FreshLabelKeys | pyp5/pyp5_cli.py:165-170 | querying the labels of the volumes in any order of the listed ones yields one key per distinct listed volume and no repeated key |
| RestoreCli.RestoreFileCounts | pyp5/pyp5_cli.py:119-191 | one file's protocol creates exactly one selection and submits once exactly when a submit was attempted |
| RestoreCli.RestoreFileLabelKeys | pyp5/pyp5_cli.py:162-170 | the volume dict of a dry run or a submitted job holds exactly one entry per distinct listed volume |
| RestoreCli.ProcessAll | pyp5/pyp5_cli.py:108-191 | the loop yields one outcome per file, a parse failure exactly for files whose list starts with `ERROR`; nothing is described or destroyed and the connection is not checked; a dry run never submits or moves a file to `finished` |
| RestoreCli.FileCounts | pyp5/pyp5_cli.py:114-191 | a parsed file creates exactly one selection, and it submits once exactly when its outcome is a submit result |
| RestoreCli.ProcessAllCounts | pyp5/pyp5_cli.py:108-191 | over the loop, selections created equal files parsed, and submits equal files with a submit result |
| RestoreCli.Main | pyp5/pyp5_cli.py:80-193 | exit code 0 exactly when the configuration loads with an archive ID other than `ERROR` and either only the test mail is sent or there are files and the connection check answers nothing; a configuration that fails or reads `ERROR` does nothing else; exit 1 creates no selection and yields no outcomes; no files means no server call; the trace starts with the connection check and no later event is one; a finished loop has one outcome per file; nothing is described or destroyed; a dry run submits nothing and moves nothing to `finished`. Files must be parseable only when the loop runs |
| RestoreCli.ArchiveIdSentinel | pyp5/pyp5_cli.py:81-84 | a configuration that loads with the archive ID `ERROR` ends the run with exit code 1 before anything else, even with `--mail` |
| RestoreCli.MainConnectionFatal | pyp5/pyp5_cli.py:103-106 | a connection check that answers anything, even a host name, ends the run with exit code 1 after that one command |
| RestoreCli.MainCounts | pyp5/pyp5_cli.py:108-193 | in every run, `--mail` included, selections created equal files parsed, submits equal files whose selection was submitted, and no more files move to `../finished` than were submitted |
| RestoreCli.FinishedAtMostSubmits | pyp5/pyp5_cli.py:173-191 | the files moved to `../finished` are never more than the files whose selection was submitted |

## Left out

- `parse_aaf` (pyp5/pyp5.py:46-61) wraps the `aaf2` container library, which is not part of this model. What it returns for a file is an input (`MediaFile.container`).
- Spawning `nsdchat` and decoding its UTF-8 output are not modelled. A reply is the oracle's string.
- A `CalledProcessError` from any wrapper other than `check_p5_connection` would abort `main`. The oracle always answers, so that path is not modelled.
- `check_p5_connection` turns an exception into its message. In the model, that message is one more non-empty reply.
- `read_conf`, `argparse`, `init_logger`, every log line and `print` are not modelled.
  - The configuration is an input: a loaded configuration or an error.
  - `read_conf`'s two-element return at pyp5/pyp5_cli.py:50 would fail the tuple unpacking. That case is not modelled.
- The directory listing behind `glob` is an input, in listing order. `glob`'s own ordering is not modelled.
- `os.system("mv ...")` is not executed. It is the `Placement` of an outcome.
- `postbote.send` is not executed. Mails are `Mail` events in the trace.
- pyp5/pyp5_gui.py is not part of this model. It repeats the protocol with widget updates and a barcode lookup.
- Inputs on which pyp5 raises are excluded by preconditions:
  - `AleWellFormed`: a `Column` line as the last line, or a data row without the selected column.
  - `EdlWellFormed`: a qualifying EDL line with fewer than two tokens.
  - `FileUsable`: an empty parse result, or a lone `"ERROR"`, at pyp5/pyp5_cli.py:114-115. `Main` demands this only of runs that reach the file loop; a run that stops earlier accepts any files.
- Parsers.EventLineTwoDigits: `isdigit` is restricted to the ASCII digits `0`-`9`. Python's Unicode-wide digit classes are not modelled.
- Text.SplitWs: whitespace is the set Python's `str.isspace` accepts, spelled out by code point. Unicode data beyond that set is not modelled.
- Order.Sort: Python compares strings by code point. The model does the same on `char`, with no locale.
- RestoreCli.FetchLabels: when a volume is listed twice, the later label overwrites the earlier one (`PutLookup`). Label values are stated in list order only when no volume repeats (`FetchLabelsInOrder`).

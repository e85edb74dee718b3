/**
 The `nsdchat` wrappers of pyp5.py: each archive-service operation is one command
 line `nsdchat + ["-c", ...]`, and a few wrappers trim the text they get back.
 Spawning the process and decoding its output are outside the model; the decoded
 output is an input.
 */
module ArchiveClient {
  import opened Results
  import opened Text
  import opened Seqs

  /** The fixed arguments `new_restore_selection` passes. */
  const RestoreHost: string := "localhost"
  const RestoreDestination: string := "/Volumes/RESTORE/Archiware/"

  /** The two halves of the `findentry` filter expression around the item. */
  const FilterOpen: string := "{name *= '"
  const FilterClose: string := "'}"

  /** One operation of the archive service's command vocabulary. */
  datatype Command =
    | ServerHostname                                                 // check_p5_connection
    | CreateSelection                                                // new_restore_selection
    | FindEntry(selection: string, archiveId: string, item: string)  // find_entry
    | ListEntries(selection: string)                                 // the `entries` query in main
    | ListVolumes(selection: string)                                 // get_volumes
    | VolumeLabel(volume: string)                                    // get_label
    | VolumeBarcode(volume: string)                                  // get_barcode
    | Submit(selection: string)                                      // submit_restore
    | Describe(selection: string, title: string)                     // describe
    | Destroy(selection: string)                                     // destroy
    | LastError                                                      // get_error
    | ArchivePlanNames                                               // get_archive_index

  /** The filter `find_entry` builds: the item is pasted between the quotes, unescaped. */
  function NameFilter(item: string): string
  {
    FilterOpen + item + FilterClose
  }

  /** The arguments after `-c`. */
  function Words(c: Command): seq<string>
  {
    match c
    case ServerHostname => ["srvinfo", "hostname"]
    case CreateSelection => ["RestoreSelection", "create", RestoreHost, RestoreDestination]
    case FindEntry(sel, aid, item) => ["RestoreSelection", sel, "findentry", aid, NameFilter(item)]
    case ListEntries(sel) => ["RestoreSelection", sel, "entries"]
    case ListVolumes(sel) => ["RestoreSelection", sel, "volumes"]
    case VolumeLabel(v) => ["Volume", v, "label"]
    case VolumeBarcode(v) => ["Volume", v, "barcode"]
    case Submit(sel) => ["RestoreSelection", sel, "submit"]
    case Describe(sel, title) => ["RestoreSelection", sel, "describe", title]
    case Destroy(sel) => ["RestoreSelection", sel, "destroy"]
    case LastError => ["geterror"]
    case ArchivePlanNames => ["ArchivPlan", "names"]
  }

  /** The full command line handed to `check_output`. */
  function Argv(nsdchat: seq<string>, c: Command): (r: seq<string>)
    ensures |r| > |nsdchat| + 1
    ensures r[..|nsdchat|] == nsdchat && r[|nsdchat|] == "-c"
    ensures c.FindEntry? ==> r[|r| - 1] == "{name *= '" + c.item + "'}"
  {
    nsdchat + ["-c"] + Words(c)
  }

  /** Recovers the item from a `findentry` filter. */
  function UnwrapFilter(s: string): Option<string>
  {
    if |s| >= |FilterOpen| + |FilterClose| && s[..|FilterOpen|] == FilterOpen && s[|s| - |FilterClose|..] == FilterClose
    then Some(s[|FilterOpen|..|s| - |FilterClose|])
    else None
  }

  /** Reads the arguments of a `RestoreSelection` command. */
  function ParseSelectionWords(w: seq<string>): Option<Command>
    requires |w| >= 3
  {
    if |w| == 4 && w[1] == "create" && w[2] == RestoreHost && w[3] == RestoreDestination then Some(CreateSelection)
    else if |w| == 3 && w[2] == "entries" then Some(ListEntries(w[1]))
    else if |w| == 3 && w[2] == "volumes" then Some(ListVolumes(w[1]))
    else if |w| == 3 && w[2] == "submit" then Some(Submit(w[1]))
    else if |w| == 3 && w[2] == "destroy" then Some(Destroy(w[1]))
    else if |w| == 4 && w[2] == "describe" then Some(Describe(w[1], w[3]))
    else if |w| == 5 && w[2] == "findentry" then
      match UnwrapFilter(w[4])
      case Some(item) => Some(FindEntry(w[1], w[3], item))
      case None => None
    else None
  }

  /** Reads the arguments after `-c` back into a command. */
  function ParseWords(w: seq<string>): Option<Command>
  {
    if w == ["srvinfo", "hostname"] then Some(ServerHostname)
    else if w == ["geterror"] then Some(LastError)
    else if w == ["ArchivPlan", "names"] then Some(ArchivePlanNames)
    else if |w| == 3 && w[0] == "Volume" && w[2] == "label" then Some(VolumeLabel(w[1]))
    else if |w| == 3 && w[0] == "Volume" && w[2] == "barcode" then Some(VolumeBarcode(w[1]))
    else if |w| >= 3 && w[0] == "RestoreSelection" then ParseSelectionWords(w)
    else None
  }

  /** Reads a command line back into the command it carries, if it is one. */
  function ParseArgv(nsdchat: seq<string>, argv: seq<string>): Option<Command>
  {
    if |argv| > |nsdchat| && argv[..|nsdchat|] == nsdchat && argv[|nsdchat|] == "-c"
    then ParseWords(argv[|nsdchat| + 1..])
    else None
  }

  lemma UnwrapNameFilter(item: string)
    ensures UnwrapFilter(NameFilter(item)) == Some(item)
  {
    var s := NameFilter(item);
    assert s[..|FilterOpen|] == FilterOpen;
    assert s[|s| - |FilterClose|..] == FilterClose;
    assert s[|FilterOpen|..|s| - |FilterClose|] == item;
  }

  lemma NameFilterOfUnwrap(s: string, item: string)
    requires UnwrapFilter(s) == Some(item)
    ensures NameFilter(item) == s
  {
    assert s == s[..|FilterOpen|] + s[|FilterOpen|..|s| - |FilterClose|] + s[|s| - |FilterClose|..];
  }

  /** Every command line reads back as the command it was built from. */
  lemma ParseArgvRoundTrip(nsdchat: seq<string>, c: Command)
    ensures ParseArgv(nsdchat, Argv(nsdchat, c)) == Some(c)
  {
    PrefixParts(nsdchat, "-c", Words(c));
    ParseWordsRoundTrip(c);
  }

  lemma ParseWordsRoundTrip(c: Command)
    ensures ParseWords(Words(c)) == Some(c)
  {
    if c.FindEntry? {
      UnwrapNameFilter(c.item);
    }
  }

  /** A command line that reads as a command is exactly that command's line. */
  lemma ArgvOfParse(nsdchat: seq<string>, argv: seq<string>, c: Command)
    requires ParseArgv(nsdchat, argv) == Some(c)
    ensures Argv(nsdchat, c) == argv
  {
    PrefixSplit(nsdchat, argv);
    WordsOfParse(argv[|nsdchat| + 1..], c);
  }

  /** Arguments that read as a command are exactly that command's arguments. */
  lemma WordsOfParse(w: seq<string>, c: Command)
    requires ParseWords(w) == Some(c)
    ensures Words(c) == w
  {
    if |w| >= 3 && w[0] == "RestoreSelection" && w != ["srvinfo", "hostname"] && w != ["geterror"] && w != ["ArchivPlan", "names"] {
      WordsOfSelection(w, c);
    }
  }

  lemma WordsOfSelection(w: seq<string>, c: Command)
    requires |w| >= 3 && w[0] == "RestoreSelection" && ParseSelectionWords(w) == Some(c)
    ensures Words(c) == w
  {
    if c.FindEntry? {
      NameFilterOfUnwrap(w[4], c.item);
    }
  }

  /** Distinct commands never share a command line. */
  lemma ArgvInjective(nsdchat: seq<string>, c1: Command, c2: Command)
    requires Argv(nsdchat, c1) == Argv(nsdchat, c2)
    ensures c1 == c2
  {
    ParseArgvRoundTrip(nsdchat, c1);
    ParseArgvRoundTrip(nsdchat, c2);
  }

  /** The wrappers that `.strip()` the decoded output: submit_restore, describe and destroy. */
  predicate StripsReply(c: Command)
  {
    c.Submit? || c.Describe? || c.Destroy?
  }

  /**
   What a wrapper returns for the decoded output `raw` of its command. For the
   stripping wrappers, a reply of whitespace only becomes the empty failure value.
   */
  function WrapperReply(c: Command, raw: string): (r: string)
    ensures StripsReply(c) ==> (r == "" <==> AllIn(raw, Whitespace))
    ensures StripsReply(c) ==> |r| == 0 || (!IsSpace(r[0]) && !IsSpace(r[|r| - 1]))
    ensures StripsReply(c) ==> exists i :: TrimmedAt(raw, r, i, Whitespace)
    ensures !StripsReply(c) ==> r == raw
  {
    if StripsReply(c) then
      StripEmpty(raw, Whitespace);
      Strip(raw, Whitespace)
    else raw
  }
}

/**
 `main` of pyp5_cli.py as a pure function. The archive service is an oracle that
 answers each command given every event before it; `main` returns the events it
 caused (archive commands and mails, in order), one outcome per file and the exit
 code. Logging, printing, the configuration file, argument parsing, the directory
 listing and the `mv` calls stay outside: the listing is an input and a move is
 the `Placement` of an outcome.
 */
module RestoreCli {
  import opened Results
  import opened Text
  import opened Order
  import opened Parsers
  import opened ArchiveClient
  import opened Seqs
  import opened Dicts

  /** What `read_conf` yields: the archive ID, the `nsdchat` prefix and the mail recipients. */
  datatype Config = Config(archiveId: string, nsdchat: seq<string>, mail: seq<string>)

  /** The flags `--dry` and `--mail`. */
  datatype Flags = Flags(dry: bool, mailOnly: bool)

  /**
   An entry of the `restore` folder: its name, what `readlines()` on it yields, and
   what `parse_aaf` on it returns (the AAF container library is outside the model).
   */
  datatype MediaFile = MediaFile(name: string, lines: Result<seq<string>>, container: Result<seq<string>>)

  /** What a run does to the outside world: an archive command, or a mail sent through `postbote.send`. */
  datatype Event = Call(cmd: Command) | Mail(to: seq<string>, subject: string, body: string)

  /** The archive service: the decoded output of a command, given every event before it. */
  type Service = (seq<Event>, Command) -> string

  /** The `volumes` dict of `main`, from quoted volume to quoted label. */
  type Labels = Dict

  /** How the restore of one file ended. */
  datatype FileOutcome =
    | ParseFailed(reason: string)
    | NoSelection
    | NoEntries
    | NoVolumes
    | SubmitFailed
    | DryRunDone(volumes: Labels)
    | Submitted(jobId: string, volumes: Labels)

  /** Where the file ends up: `mv` to `failed/`, `mv` to `../finished`, or not moved. */
  datatype Placement = MovedToFailed | MovedToFinished | LeftInPlace

  /**
   Only a failed parse moves the file to `failed/`, only a submitted job moves it to `../finished`.
   `ProcessFilePlacement` states when each happens in terms of the parse and the server's replies.
   */
  function PlacementOf(o: FileOutcome): (p: Placement)
    ensures p == MovedToFailed <==> o.ParseFailed?
    ensures p == MovedToFinished <==> o.Submitted?
  {
    match o
    case ParseFailed(_) => MovedToFailed
    case Submitted(_, _) => MovedToFinished
    case _ => LeftInPlace
  }

  /** One pass of the file loop: the outcome, the items logged as not found, and the events caused. */
  datatype FileStep = FileStep(outcome: FileOutcome, misses: seq<string>, events: seq<Event>)

  /** A whole run. */
  datatype Run = Run(exitCode: int, trace: seq<Event>, outcomes: seq<FileOutcome>)

  /** What every step of the file loop consults: the configuration, the `--dry` flag and the archive service. */
  datatype Env = Env(conf: Config, dry: bool, svc: Service)

  // ---------------------------------------------------------------------------
  // Properties of event sequences
  // ---------------------------------------------------------------------------

  predicate NoSubmit(events: seq<Event>)
  {
    forall i :: 0 <= i < |events| ==> !(events[i].Call? && events[i].cmd.Submit?)
  }

  predicate NoDescribeOrDestroy(events: seq<Event>)
  {
    forall i :: 0 <= i < |events| ==> !(events[i].Call? && (events[i].cmd.Describe? || events[i].cmd.Destroy?))
  }

  /** The connection check does not occur in `events`. */
  predicate NoConnectionCheck(events: seq<Event>)
  {
    forall i :: 0 <= i < |events| ==> events[i] != Call(ServerHostname)
  }

  predicate NoSelectionCreated(events: seq<Event>)
  {
    forall i :: 0 <= i < |events| ==> !(events[i].Call? && events[i].cmd.CreateSelection?)
  }

  /** Commands that name a restore selection. */
  predicate NamesSelection(c: Command)
  {
    c.FindEntry? || c.ListEntries? || c.ListVolumes? || c.Submit? || c.Describe? || c.Destroy?
  }

  /** Every selection-scoped command in `events` names `sel`. */
  predicate OnlySelection(events: seq<Event>, sel: string)
  {
    forall i :: 0 <= i < |events| && events[i].Call? && NamesSelection(events[i].cmd) ==> events[i].cmd.selection == sel
  }

  // ---------------------------------------------------------------------------
  // The file list
  // ---------------------------------------------------------------------------

  function LowerAscii(c: char): char
  {
    if 'A' <= c <= 'Z' then (c as int + 32) as char else c
  }

  /**
   The glob `*.[xX][yY][zZ]` for a lower-case extension `xyz`: the name is not hidden
   (`*` does not match a leading dot) and ends in a dot and the three letters, each in either case.
   */
  predicate GlobMatches(name: string, ext: string)
    requires |ext| == 3
  {
    && |name| >= 4 && name[0] != '.' && name[|name| - 4] == '.'
    && LowerAscii(name[|name| - 3]) == ext[0]
    && LowerAscii(name[|name| - 2]) == ext[1]
    && LowerAscii(name[|name| - 1]) == ext[2]
  }

  /** The entries of the listing that the glob for `ext` returns, in listing order. */
  function Glob(listing: seq<MediaFile>, ext: string): (r: seq<MediaFile>)
    requires |ext| == 3
    ensures forall f :: f in r <==> f in listing && GlobMatches(f.name, ext)
    ensures |r| <= |listing|
  {
    if |listing| == 0 then []
    else (if GlobMatches(listing[0].name, ext) then [listing[0]] else []) + Glob(listing[1..], ext)
  }

  /**
   `files = ale_files + aaf_files`: the entries either glob admits. No name passes both
   globs, so the batch never holds more files than the listing has entries.
   */
  function BatchFiles(listing: seq<MediaFile>): (r: seq<MediaFile>)
    ensures forall f :: f in r <==> f in listing && (GlobMatches(f.name, "ale") || GlobMatches(f.name, "aaf"))
    ensures |r| <= |listing|
  {
    GlobsDisjoint(listing);
    Glob(listing, "ale") + Glob(listing, "aaf")
  }

  /** Each entry passes at most one of the two globs, so together they list at most every entry once. */
  lemma {:induction false} GlobsDisjoint(listing: seq<MediaFile>)
    ensures |Glob(listing, "ale")| + |Glob(listing, "aaf")| <= |listing|
    decreases |listing|
  {
    if |listing| > 0 {
      GlobsDisjoint(listing[1..]);
      var n := listing[0].name;
      assert !(GlobMatches(n, "ale") && GlobMatches(n, "aaf")) by {
        if GlobMatches(n, "ale") { assert LowerAscii(n[|n| - 3]) == 'a' && LowerAscii(n[|n| - 2]) == 'l'; }
      }
    }
  }

  /** The path glob returns for an entry. */
  function PathOf(dir: string, f: MediaFile): string
  {
    dir + "/restore/" + f.name
  }

  /** `file.split(".")[1] == "ale"`: the second dot-separated part of the whole path decides the parser. */
  predicate ReadAsAle(path: string)
    requires '.' in path
  {
    Split(path, '.')[1] == "ale"
  }

  /**
   Cut at its first dot, a path goes to `parse_ale` exactly when what follows that dot
   is `ale` and then either the end of the path or another dot.
   */
  lemma ReadAsAleIff(a: string, b: string)
    requires '.' !in a
    ensures '.' in a + ['.'] + b
    ensures ReadAsAle(a + ['.'] + b) <==> b == "ale" || (|b| > 3 && b[..4] == "ale.")
  {
    assert (a + ['.'] + b)[|a|] == '.';
    SplitHead(a, '.', b);
    FirstPiece("ale", b, '.');
    assert "ale" + ['.'] == "ale.";
  }

  /** The list a parser hands to `main`: the items, or `["ERROR", message]`. */
  function ParserList(r: Result<seq<string>>): (l: seq<string>)
    ensures r.Err? ==> |l| == 2 && l[0] == "ERROR" && l[1] == r.msg
    ensures r.Ok? ==> l == r.value
  {
    match r
    case Ok(items) => items
    case Err(m) => ["ERROR", m]
  }

  /**
   The test `main` puts to a parser's list: it reads a failed parse, and also a parsed
   list whose first item is the text `ERROR`, as a failure; any other list is searched as it is.
   */
  lemma ParserListSentinel(r: Result<seq<string>>)
    requires r.Ok? ==> |r.value| > 0
    ensures |ParserList(r)| > 0
    ensures ParserList(r)[0] == "ERROR" <==> r.Err? || r.value[0] == "ERROR"
    ensures r.Err? ==> ParserList(r)[1] == r.msg
    ensures ParserList(r)[0] != "ERROR" ==> ParserList(r) == r.value
  {
  }

  /** The file can be dispatched, and `parse_ale` can run on it if it is chosen. */
  predicate Dispatchable(dir: string, f: MediaFile)
  {
    && '.' in PathOf(dir, f)
    && (ReadAsAle(PathOf(dir, f)) && f.lines.Ok? ==> AleWellFormed(f.lines.value))
  }

  /** What the extension dispatch of `main` hands back for a file. */
  function SearchList(dir: string, f: MediaFile): seq<string>
    requires Dispatchable(dir, f)
  {
    if ReadAsAle(PathOf(dir, f)) then ParserList(ParseAleFile(f.lines)) else ParserList(f.container)
  }

  /** `search_items[0]`, and `search_items[1]` after an `"ERROR"`, exist (`main` raises `IndexError` otherwise). */
  predicate FileUsable(dir: string, f: MediaFile)
  {
    && Dispatchable(dir, f)
    && var items := SearchList(dir, f);
       |items| > 0 && (items[0] == "ERROR" ==> |items| >= 2)
  }

  // ---------------------------------------------------------------------------
  // The protocol for one file
  // ---------------------------------------------------------------------------

  /** `.strip("\n")`, which `main` applies to most replies. */
  function Chomp(s: string): string
  {
    Strip(s, Just('\n'))
  }

  /** A find-entry reply that `main` logs as "not found in archive". */
  predicate IsMiss(reply: string)
  {
    reply == "0" || reply == ""
  }

  /** One find-entry command per item, in item order. */
  function FindEntryCalls(sel: string, archiveId: string, items: seq<string>): (r: seq<Event>)
    ensures |r| == |items|
    ensures forall k :: 0 <= k < |items| ==> r[k] == Call(FindEntry(sel, archiveId, items[k]))
  {
    seq(|items|, k requires 0 <= k < |items| => Call(FindEntry(sel, archiveId, items[k])))
  }

  /** One label query per volume, in volume order. */
  function LabelCalls(vols: seq<string>): (r: seq<Event>)
    ensures |r| == |vols|
    ensures forall k :: 0 <= k < |vols| ==> r[k] == Call(VolumeLabel(vols[k]))
  {
    seq(|vols|, k requires 0 <= k < |vols| => Call(VolumeLabel(vols[k])))
  }

  lemma FindEntryCallsStep(sel: string, archiveId: string, items: seq<string>, k: nat)
    requires 0 < k <= |items|
    ensures FindEntryCalls(sel, archiveId, items[..k])
         == [Call(FindEntry(sel, archiveId, items[0]))] + FindEntryCalls(sel, archiveId, items[1..][..k - 1])
  {
  }

  /** A command `main` issues between creating the selection `sel` and submitting it. */
  predicate Probe(c: Command, sel: string)
  {
    (c.FindEntry? && c.selection == sel) || c == ListEntries(sel) || c == ListVolumes(sel) || c.VolumeLabel? || c.LastError?
  }

  /** Every event is an archive command that only queries or fills the selection `sel`. */
  predicate Probes(events: seq<Event>, sel: string)
  {
    forall i :: 0 <= i < |events| ==> events[i].Call? && Probe(events[i].cmd, sel)
  }

  lemma ProbesAppend(a: seq<Event>, b: seq<Event>, sel: string)
    requires Probes(a, sel) && Probes(b, sel)
    ensures Probes(a + b, sel)
  {
  }

  lemma ProbesFacts(events: seq<Event>, sel: string)
    requires Probes(events, sel)
    ensures NoSubmit(events) && NoDescribeOrDestroy(events) && NoSelectionCreated(events)
    ensures NoConnectionCheck(events) && OnlySelection(events, sel)
  {
  }

  /** The five event properties hold of a concatenation exactly when they hold of both parts. */
  lemma EventFactsAppend(a: seq<Event>, b: seq<Event>, sel: string)
    ensures NoSubmit(a + b) <==> NoSubmit(a) && NoSubmit(b)
    ensures NoDescribeOrDestroy(a + b) <==> NoDescribeOrDestroy(a) && NoDescribeOrDestroy(b)
    ensures NoConnectionCheck(a + b) <==> NoConnectionCheck(a) && NoConnectionCheck(b)
    ensures NoSelectionCreated(a + b) <==> NoSelectionCreated(a) && NoSelectionCreated(b)
    ensures OnlySelection(a + b, sel) <==> OnlySelection(a, sel) && OnlySelection(b, sel)
  {
    var ab := a + b;
    forall i | 0 <= i < |ab| ensures ab[i] == if i < |a| then a[i] else b[i - |a|] {}
    forall i | 0 <= i < |b| ensures ab[|a| + i] == b[i] {}
  }

  /** The printed replies and the logged misses of the item loop. */
  datatype Search = Search(replies: seq<string>, misses: seq<string>)

  /**
   The `for item in search_items` loop: one find-entry per item, whatever the replies;
   a reply of `"0"` or nothing only puts the item on the list of misses.
   */
  function SearchItems(env: Env, sel: string, items: seq<string>, h: seq<Event>): (r: Search)
    ensures |r.replies| == |items|
    ensures |r.misses| <= |items|
    decreases |items|
  {
    if |items| == 0 then Search([], [])
    else
      var c := FindEntry(sel, env.conf.archiveId, items[0]);
      var reply := Chomp(env.svc(h, c));
      var rest := SearchItems(env, sel, items[1..], h + [Call(c)]);
      Search([reply] + rest.replies, (if IsMiss(reply) then [items[0]] else []) + rest.misses)
  }

  /** The `k`-th find-entry is answered with the history of the file so far plus the finds before it. */
  lemma {:induction false} SearchReplyAt(env: Env, sel: string, items: seq<string>, h: seq<Event>, k: nat)
    requires k < |items|
    ensures SearchItems(env, sel, items, h).replies[k]
         == Chomp(env.svc(h + FindEntryCalls(sel, env.conf.archiveId, items[..k]), FindEntry(sel, env.conf.archiveId, items[k])))
    decreases k
  {
    var c := FindEntry(sel, env.conf.archiveId, items[0]);
    if k == 0 {
      assert items[..0] == [];
      assert FindEntryCalls(sel, env.conf.archiveId, []) == [];
      assert h + [] == h;
    } else {
      SearchReplyAt(env, sel, items[1..], h + [Call(c)], k - 1);
      FindEntryCallsStep(sel, env.conf.archiveId, items, k);
      assert items[1..][k - 1] == items[k];
      assert (h + [Call(c)]) + FindEntryCalls(sel, env.conf.archiveId, items[1..][..k - 1])
          == h + FindEntryCalls(sel, env.conf.archiveId, items[..k]);
    }
  }

  /** An item whose find-entry was answered with `"0"` or nothing is logged as missing. */
  lemma {:induction false} SearchMissLogged(env: Env, sel: string, items: seq<string>, h: seq<Event>, k: nat)
    requires k < |items| && IsMiss(SearchItems(env, sel, items, h).replies[k])
    ensures items[k] in SearchItems(env, sel, items, h).misses
    decreases k
  {
    if k > 0 {
      var c := FindEntry(sel, env.conf.archiveId, items[0]);
      assert items[1..][k - 1] == items[k];
      SearchMissLogged(env, sel, items[1..], h + [Call(c)], k - 1);
    }
  }

  /** Only items whose find-entry was answered with `"0"` or nothing are logged as missing. */
  lemma {:induction false} SearchMissFound(env: Env, sel: string, items: seq<string>, h: seq<Event>, x: string)
    requires x in SearchItems(env, sel, items, h).misses
    ensures exists k :: 0 <= k < |items| && items[k] == x && IsMiss(SearchItems(env, sel, items, h).replies[k])
    decreases |items|
  {
    var r := SearchItems(env, sel, items, h);
    var c := FindEntry(sel, env.conf.archiveId, items[0]);
    var rest := SearchItems(env, sel, items[1..], h + [Call(c)]);
    SearchCons(env, sel, items, h);
    if x in rest.misses {
      SearchMissFound(env, sel, items[1..], h + [Call(c)], x);
      var k :| 0 <= k < |items| - 1 && items[1..][k] == x && IsMiss(rest.replies[k]);
      MissShift(items, r.replies, rest.replies, k);
    } else {
      assert items[0] == x && IsMiss(r.replies[0]);
    }
  }

  /** The first find-entry, then the search of the remaining items. */
  lemma SearchCons(env: Env, sel: string, items: seq<string>, h: seq<Event>)
    requires |items| > 0
    ensures var r := SearchItems(env, sel, items, h);
            var rest := SearchItems(env, sel, items[1..], h + [Call(FindEntry(sel, env.conf.archiveId, items[0]))]);
            && r.replies == [r.replies[0]] + rest.replies
            && r.misses == (if IsMiss(r.replies[0]) then [items[0]] else []) + rest.misses
  {
  }

  /** The `k`-th of the remaining items is the `k + 1`-th item, with the `k + 1`-th reply. */
  lemma MissShift(items: seq<string>, replies: seq<string>, rest: seq<string>, k: nat)
    requires |items| > 0 && k < |items| - 1 && |rest| == |items| - 1
    requires |replies| > 0 && replies == [replies[0]] + rest
    ensures items[k + 1] == items[1..][k] && replies[k + 1] == rest[k]
  {
  }

  /** `f'"{s}"'`. */
  function Quote(s: string): string
  {
    "\"" + s + "\""
  }

  lemma QuoteInjective(a: string, b: string)
    requires Quote(a) == Quote(b)
    ensures a == b
  {
    assert a == Quote(a)[1..|Quote(a)| - 1];
    assert b == Quote(b)[1..|Quote(b)| - 1];
  }

  /**
   The label loop: one label query per volume in the given order, each label stored
   under the quoted volume.
   */
  function FetchLabels(env: Env, vols: seq<string>, h: seq<Event>, d: Labels): (r: Labels)
    ensures |r| <= |d| + |vols|
    decreases |vols|
  {
    if |vols| == 0 then d
    else
      var c := VolumeLabel(vols[0]);
      var volumeLabel := Chomp(env.svc(h, c));
      FetchLabels(env, vols[1..], h + [Call(c)], Put(d, Quote(vols[0]), Quote(volumeLabel)))
  }

  function QuotedSet(vols: seq<string>): set<string>
  {
    set v | v in vols :: Quote(v)
  }

  /** The dict ends up with one key per volume queried, on top of what it held. */
  lemma {:induction false} FetchLabelsKeys(env: Env, vols: seq<string>, h: seq<Event>, d: Labels)
    ensures Keys(FetchLabels(env, vols, h, d)) == Keys(d) + QuotedSet(vols)
    ensures DistinctKeys(d) ==> DistinctKeys(FetchLabels(env, vols, h, d))
    decreases |vols|
  {
    if |vols| > 0 {
      var c := VolumeLabel(vols[0]);
      var volumeLabel := Chomp(env.svc(h, c));
      var d' := Put(d, Quote(vols[0]), Quote(volumeLabel));
      PutKeys(d, Quote(vols[0]), Quote(volumeLabel));
      if DistinctKeys(d) { PutDistinct(d, Quote(vols[0]), Quote(volumeLabel)); }
      FetchLabelsKeys(env, vols[1..], h + [Call(c)], d');
      QuotedSetCons(vols);
    }
  }

  lemma QuotedSetCons(vols: seq<string>)
    requires |vols| > 0
    ensures QuotedSet(vols) == {Quote(vols[0])} + QuotedSet(vols[1..])
  {
    HeadTail(vols);
  }

  /** The quoted label the service gives for the `k`-th volume, after the queries before it. */
  function LabelAt(env: Env, vols: seq<string>, h: seq<Event>, k: nat): string
    requires k < |vols|
  {
    Quote(Chomp(env.svc(h + LabelCalls(vols[..k]), VolumeLabel(vols[k]))))
  }

  lemma LabelAtShift(env: Env, vols: seq<string>, h: seq<Event>, k: nat)
    requires 0 < k < |vols|
    ensures LabelAt(env, vols, h, k) == LabelAt(env, vols[1..], h + [Call(VolumeLabel(vols[0]))], k - 1)
  {
    assert vols[1..][k - 1] == vols[k];
    assert LabelCalls(vols[..k]) == [Call(VolumeLabel(vols[0]))] + LabelCalls(vols[1..][..k - 1]);
    assert (h + [Call(VolumeLabel(vols[0]))]) + LabelCalls(vols[1..][..k - 1]) == h + LabelCalls(vols[..k]);
  }

  lemma FreshAfterFirst(vols: seq<string>, d: Labels, p: (string, string))
    requires |vols| > 0 && p.0 == Quote(vols[0])
    requires forall i, j :: 0 <= i < j < |vols| ==> vols[i] != vols[j]
    requires Keys(d) !! QuotedSet(vols)
    ensures Keys(d + [p]) !! QuotedSet(vols[1..])
  {
    KeysAppend(d, p);
    forall v | v in vols[1..] ensures Quote(v) !in Keys(d + [p]) {
      assert Quote(v) in QuotedSet(vols);
      if Quote(v) == Quote(vols[0]) {
        QuoteInjective(v, vols[0]);
        assert false;
      }
    }
  }

  /**
   With no volume repeated, the dict lists the volumes in the order they were queried,
   each with the label the service gave for it.
   */
  lemma {:induction false} FetchLabelsInOrder(env: Env, vols: seq<string>, h: seq<Event>, d: Labels)
    requires forall i, j :: 0 <= i < j < |vols| ==> vols[i] != vols[j]
    requires Keys(d) !! QuotedSet(vols)
    ensures |FetchLabels(env, vols, h, d)| == |d| + |vols|
    ensures FetchLabels(env, vols, h, d)[..|d|] == d
    ensures forall i :: |d| <= i < |FetchLabels(env, vols, h, d)| ==>
              FetchLabels(env, vols, h, d)[i] == (Quote(vols[i - |d|]), LabelAt(env, vols, h, i - |d|))
    decreases |vols|
  {
    if |vols| > 0 {
      var r := FetchLabels(env, vols, h, d);
      var c := VolumeLabel(vols[0]);
      var p := (Quote(vols[0]), LabelAt(env, vols, h, 0));
      assert vols[..0] == [] && h + LabelCalls([]) == h;
      assert Quote(vols[0]) in QuotedSet(vols);
      PutFresh(d, p.0, p.1);
      var d' := d + [p];
      FreshAfterFirst(vols, d, p);
      FetchLabelsInOrder(env, vols[1..], h + [Call(c)], d');
      assert r == FetchLabels(env, vols[1..], h + [Call(c)], d');
      InOrderStep(env, vols, h, d, d', r);
    }
  }

  /** The order of the dict after the first volume, carried back to the whole volume list. */
  lemma InOrderStep(env: Env, vols: seq<string>, h: seq<Event>, d: Labels, d': Labels, r: Labels)
    requires |vols| > 0 && d' == d + [(Quote(vols[0]), LabelAt(env, vols, h, 0))]
    requires |r| == |d'| + |vols[1..]| && r[..|d'|] == d'
    requires forall i :: |d'| <= i < |r| ==>
               r[i] == (Quote(vols[1..][i - |d'|]), LabelAt(env, vols[1..], h + [Call(VolumeLabel(vols[0]))], i - |d'|))
    ensures r[..|d|] == d
    ensures forall i :: |d| <= i < |r| ==> r[i] == (Quote(vols[i - |d|]), LabelAt(env, vols, h, i - |d|))
  {
    assert r[..|d|] == r[..|d| + 1][..|d|];
    forall i | |d| <= i < |r| ensures r[i] == (Quote(vols[i - |d|]), LabelAt(env, vols, h, i - |d|)) {
      if i == |d| {
        assert r[|d|] == r[..|d| + 1][|d|];
      } else {
        LabelAtShift(env, vols, h, i - |d|);
        assert vols[1..][i - (|d| + 1)] == vols[i - |d|];
      }
    }
  }

  /** `f"{key}: {value}\n"`: the line of the mail body for one dict entry. */
  function EntryLine(p: (string, string)): string
  {
    p.0 + ": " + p.1 + "\n"
  }

  /** The lines of the mail body listing the volumes needed, one per dict entry in order. */
  function LabelLines(d: Labels): string
  {
    if |d| == 0 then "" else EntryLine(d[0]) + LabelLines(d[1..])
  }

  /** The body of the mail sent when a restore job starts. */
  function VolumesMessage(d: Labels): (m: string)
    ensures |m| >= 28 && m[..28] == "Volumes needed for restore:\n"
  {
    "Volumes needed for restore:\n" + LabelLines(d)
  }

  /**
   `message += f"{key}: {value}\n"` over `volumes.items()`: each entry adds its line
   at the end, so the recursive definition is the loop's accumulation.
   */
  lemma VolumesMessageSnoc(d: Labels, p: (string, string))
    ensures VolumesMessage(d + [p]) == VolumesMessage(d) + EntryLine(p)
  {
    LabelLinesSnoc(d, p);
    Assoc("Volumes needed for restore:\n", LabelLines(d), EntryLine(p));
  }

  lemma {:induction false} LabelLinesSnoc(d: Labels, p: (string, string))
    ensures LabelLines(d + [p]) == LabelLines(d) + EntryLine(p)
    decreases |d|
  {
    if |d| == 0 {
      assert d + [p] == [p];
      AppendEmpty(EntryLine(p));
    } else {
      ConsTail(d, [p]);
      LabelLinesSnoc(d[1..], p);
      Assoc(EntryLine(d[0]), LabelLines(d[1..]), EntryLine(p));
    }
  }

  /** The selection ID `main` works with: the create reply without newlines. */
  function SelectionReply(env: Env, h: seq<Event>): string
  {
    Chomp(env.svc(h, CreateSelection))
  }

  /** The events of a file up to the entry search, given the selection `sel`. */
  function Searched(env: Env, sel: string, items: seq<string>): seq<Event>
  {
    [Call(CreateSelection)] + FindEntryCalls(sel, env.conf.archiveId, items)
  }

  function EntriesReply(env: Env, h: seq<Event>, sel: string, items: seq<string>): string
  {
    Chomp(env.svc(h + Searched(env, sel, items), ListEntries(sel)))
  }

  function Counted(env: Env, sel: string, items: seq<string>): seq<Event>
  {
    Searched(env, sel, items) + [Call(ListEntries(sel))]
  }

  /** The volumes reply, before any stripping: `main` tests it for emptiness as it is. */
  function VolumesReply(env: Env, h: seq<Event>, sel: string, items: seq<string>): string
  {
    env.svc(h + Counted(env, sel, items), ListVolumes(sel))
  }

  function Listed(env: Env, sel: string, items: seq<string>): seq<Event>
  {
    Counted(env, sel, items) + [Call(ListVolumes(sel))]
  }

  /**
   `sorted(volumes.strip("\n").split(" "))`: the space-separated names of the reply,
   in ascending order. A reply of newlines only gives one empty name.
   */
  function VolumesNeeded(raw: string): (r: seq<string>)
    ensures Sorted(r) && multiset(r) == multiset(Split(Chomp(raw), ' '))
    ensures |r| >= 1 && forall k :: 0 <= k < |r| ==> ' ' !in r[k]
    ensures Chomp(raw) == "" ==> r == [""]
  {
    SortKeepsPieces(Split(Chomp(raw), ' '));
    Sort(Split(Chomp(raw), ' '))
  }

  /** Sorting keeps the pieces: none gains a space, there is still one at least, and `[""]` stays as it is. */
  lemma SortKeepsPieces(s: seq<string>)
    requires |s| >= 1 && forall k :: 0 <= k < |s| ==> ' ' !in s[k]
    ensures |Sort(s)| >= 1 && forall k :: 0 <= k < |Sort(s)| ==> ' ' !in Sort(s)[k]
    ensures s == [""] ==> Sort(s) == [""]
  {
    var r := Sort(s);
    assert |r| == |multiset(r)| == |multiset(s)| == |s|;
    forall k | 0 <= k < |r| ensures ' ' !in r[k] {
      assert r[k] in multiset(s);
      var j :| 0 <= j < |s| && s[j] == r[k];
    }
    if s == [""] {
      SortCharacterized(s, s);
    }
  }

  function Labelled(env: Env, h: seq<Event>, sel: string, items: seq<string>): seq<Event>
  {
    Listed(env, sel, items) + LabelCalls(VolumesNeeded(VolumesReply(env, h, sel, items)))
  }

  function JobReply(env: Env, h: seq<Event>, sel: string, items: seq<string>): string
  {
    WrapperReply(Submit(sel), env.svc(h + Labelled(env, h, sel, items), Submit(sel)))
  }

  function SubmitFailedMail(env: Env, path: string): Event
  {
    Mail(env.conf.mail, "ERROR", "Could not submit restore selection of \"" + path + "\".")
  }

  function StartedMail(env: Env, job: string, labels: Labels): Event
  {
    Mail(env.conf.mail, "Restore " + job + " started", VolumesMessage(labels))
  }

  /**
   How the protocol ends once the labels are fetched: a dry run stops there; otherwise
   the selection is submitted, and a reply of nothing but whitespace is a failed submit.
   */
  function SubmitOutcome(env: Env, h: seq<Event>, sel: string, items: seq<string>, labels: Labels): (o: FileOutcome)
    ensures o.DryRunDone? <==> env.dry
    ensures o.SubmitFailed? <==> !env.dry && AllIn(env.svc(h + Labelled(env, h, sel, items), Submit(sel)), Whitespace)
    ensures o.Submitted? ==> o.jobId != "" && exists i :: TrimmedAt(env.svc(h + Labelled(env, h, sel, items), Submit(sel)), o.jobId, i, Whitespace)
    ensures o.Submitted? ==> !IsSpace(o.jobId[0]) && !IsSpace(o.jobId[|o.jobId| - 1])
    ensures o.DryRunDone? || o.Submitted? ==> o.volumes == labels
  {
    if env.dry then DryRunDone(labels)
    else
      var job := JobReply(env, h, sel, items);
      if job == "" then SubmitFailed else Submitted(job, labels)
  }

  /** The submit and the mail that follow the label queries, when the run is not dry. */
  function SubmitTail(env: Env, path: string, sel: string, o: FileOutcome): seq<Event>
  {
    match o
    case SubmitFailed => [Call(Submit(sel)), SubmitFailedMail(env, path)]
    case Submitted(job, labels) => [Call(Submit(sel)), StartedMail(env, job, labels)]
    case _ => []
  }

  /** Everything `main` does for a file whose parse succeeded, from creating the selection on. */
  function RestoreFile(env: Env, path: string, items: seq<string>, h: seq<Event>): (r: FileStep)
    ensures |r.events| >= 2 && r.events[0] == Call(CreateSelection)
    ensures r.outcome == NoSelection <==> SelectionReply(env, h) == ""
    ensures !r.outcome.ParseFailed?
    ensures r.outcome.Submitted? ==> r.outcome.jobId != ""
  {
    var sel := SelectionReply(env, h);
    if sel == "" then FileStep(NoSelection, [], [Call(CreateSelection), Call(LastError)])
    else
      var search := SearchItems(env, sel, items, h + [Call(CreateSelection)]);
      if IsMiss(EntriesReply(env, h, sel, items)) then FileStep(NoEntries, search.misses, Counted(env, sel, items))
      else
        var raw := VolumesReply(env, h, sel, items);
        if raw == "" then FileStep(NoVolumes, search.misses, Listed(env, sel, items) + [Call(LastError)])
        else
          var labels := FetchLabels(env, VolumesNeeded(raw), h + Listed(env, sel, items), []);
          var outcome := SubmitOutcome(env, h, sel, items, labels);
          FileStep(outcome, search.misses, Labelled(env, h, sel, items) + SubmitTail(env, path, sel, outcome))
  }

  /** The commands after the selection is created and before it is submitted, for each way the protocol stops. */
  function Lead(env: Env, h: seq<Event>, sel: string, items: seq<string>, o: FileOutcome): seq<Event>
  {
    FindEntryCalls(sel, env.conf.archiveId, items) + [Call(ListEntries(sel))]
    + (if o.NoEntries? then [] else [Call(ListVolumes(sel))])
    + (if o.NoVolumes? then [Call(LastError)]
       else if o.NoEntries? then []
       else LabelCalls(VolumesNeeded(VolumesReply(env, h, sel, items))))
  }

  lemma LeadProbes(env: Env, h: seq<Event>, sel: string, items: seq<string>, o: FileOutcome)
    ensures Probes(Lead(env, h, sel, items, o), sel)
  {
    var finds := FindEntryCalls(sel, env.conf.archiveId, items);
    var mid: seq<Event> := if o.NoEntries? then [] else [Call(ListVolumes(sel))];
    var last: seq<Event> := if o.NoVolumes? then [Call(LastError)] else if o.NoEntries? then [] else LabelCalls(VolumesNeeded(VolumesReply(env, h, sel, items)));
    FindsProbe(sel, env.conf.archiveId, items);
    assert Probes([Call(ListEntries(sel))], sel);
    assert Probes(mid, sel);
    if !o.NoVolumes? && !o.NoEntries? {
      LabelsProbe(VolumesNeeded(VolumesReply(env, h, sel, items)), sel);
    }
    ProbesAppend(finds, [Call(ListEntries(sel))], sel);
    ProbesAppend(finds + [Call(ListEntries(sel))], mid, sel);
    ProbesAppend(finds + [Call(ListEntries(sel))] + mid, last, sel);
  }

  lemma FindsProbe(sel: string, archiveId: string, items: seq<string>)
    ensures Probes(FindEntryCalls(sel, archiveId, items), sel)
  {
  }

  lemma LabelsProbe(vols: seq<string>, sel: string)
    ensures Probes(LabelCalls(vols), sel)
  {
  }

  /** The shape of every file's events: create, probes of the selection, then at most a submit of it and a mail. */
  lemma ShapeFacts(e: seq<Event>, sel: string, lead: seq<Event>, tail: seq<Event>)
    requires e == [Call(CreateSelection)] + lead + tail
    requires Probes(lead, sel)
    requires tail == [] || (|tail| == 2 && tail[0] == Call(Submit(sel)) && tail[1].Mail?)
    ensures NoDescribeOrDestroy(e) && NoConnectionCheck(e) && NoSelectionCreated(e[1..]) && OnlySelection(e, sel)
    ensures NoSubmit(e) <==> tail == []
  {
    ProbesFacts(lead, sel);
    DropFirst(e, Call(CreateSelection), lead, tail);
    CreateFacts(sel);
    TailFacts(tail, sel);
    EventFactsAppend(lead, tail, sel);
    EventFactsAppend([Call(CreateSelection)], lead + tail, sel);
  }

  lemma CreateFacts(sel: string)
    ensures var e := [Call(CreateSelection)];
            NoSubmit(e) && NoDescribeOrDestroy(e) && NoConnectionCheck(e) && OnlySelection(e, sel)
  {
  }

  /** Nothing after the probes, or a submit of `sel` and a mail. */
  lemma TailFacts(tail: seq<Event>, sel: string)
    requires tail == [] || (|tail| == 2 && tail[0] == Call(Submit(sel)) && tail[1].Mail?)
    ensures NoDescribeOrDestroy(tail) && NoConnectionCheck(tail) && NoSelectionCreated(tail) && OnlySelection(tail, sel)
    ensures NoSubmit(tail) <==> tail == []
  {
    if tail != [] {
      assert !NoSubmit(tail);
    }
  }

  lemma NoSelectionShape(sel: string)
    ensures var e := [Call(CreateSelection), Call(LastError)];
            NoDescribeOrDestroy(e) && NoConnectionCheck(e) && NoSelectionCreated(e[1..]) && OnlySelection(e, sel) && NoSubmit(e)
  {
    var e := [Call(CreateSelection), Call(LastError)];
    assert Probes([Call(LastError)], sel);
    ShapeFacts(e, sel, [Call(LastError)], []);
  }

  /** Once a selection exists, a file's events are its creation, probes of it, and the submit tail. */
  lemma RestoreFileShape(env: Env, path: string, items: seq<string>, h: seq<Event>)
    requires SelectionReply(env, h) != ""
    ensures var r := RestoreFile(env, path, items, h);
            r.events == [Call(CreateSelection)] + Lead(env, h, SelectionReply(env, h), items, r.outcome)
                        + SubmitTail(env, path, SelectionReply(env, h), r.outcome)
  {
    var sel := SelectionReply(env, h);
    var r := RestoreFile(env, path, items, h);
    if IsMiss(EntriesReply(env, h, sel, items)) {
      NoEntriesStep(env, path, items, h);
      CountedLead(env, h, sel, items);
      assert SubmitTail(env, path, sel, NoEntries) == [];
      AppendEmpty(Counted(env, sel, items));
    } else if VolumesReply(env, h, sel, items) == "" {
      NoVolumesStep(env, path, items, h);
      ListedLead(env, h, sel, items);
      assert SubmitTail(env, path, sel, NoVolumes) == [];
      AppendEmpty(Listed(env, sel, items) + [Call(LastError)]);
    } else {
      LabelledStep(env, path, items, h);
      LabelledLead(env, h, sel, items, r.outcome);
    }
  }

  /** A file whose selection holds no entries stops after the entry count. */
  lemma NoEntriesStep(env: Env, path: string, items: seq<string>, h: seq<Event>)
    requires SelectionReply(env, h) != "" && IsMiss(EntriesReply(env, h, SelectionReply(env, h), items))
    ensures var sel := SelectionReply(env, h);
            RestoreFile(env, path, items, h)
            == FileStep(NoEntries, SearchItems(env, sel, items, h + [Call(CreateSelection)]).misses, Counted(env, sel, items))
  {
  }

  /** A file whose selection needs no volumes stops after asking for the last error. */
  lemma NoVolumesStep(env: Env, path: string, items: seq<string>, h: seq<Event>)
    requires SelectionReply(env, h) != "" && !IsMiss(EntriesReply(env, h, SelectionReply(env, h), items))
    requires VolumesReply(env, h, SelectionReply(env, h), items) == ""
    ensures var sel := SelectionReply(env, h);
            RestoreFile(env, path, items, h)
            == FileStep(NoVolumes, SearchItems(env, sel, items, h + [Call(CreateSelection)]).misses, Listed(env, sel, items) + [Call(LastError)])
  {
  }

  /** A file that gets as far as the labels: the label queries, then the submit tail of its outcome. */
  lemma LabelledStep(env: Env, path: string, items: seq<string>, h: seq<Event>)
    requires SelectionReply(env, h) != "" && !IsMiss(EntriesReply(env, h, SelectionReply(env, h), items))
    requires VolumesReply(env, h, SelectionReply(env, h), items) != ""
    ensures var sel := SelectionReply(env, h);
            var r := RestoreFile(env, path, items, h);
            && !r.outcome.NoEntries? && !r.outcome.NoVolumes?
            && r.events == Labelled(env, h, sel, items) + SubmitTail(env, path, sel, r.outcome)
  {
  }

  /** Past the volume query, the outcome is the submit outcome over the fetched labels. */
  lemma LabelledOutcome(env: Env, path: string, items: seq<string>, h: seq<Event>)
    requires SelectionReply(env, h) != "" && !IsMiss(EntriesReply(env, h, SelectionReply(env, h), items))
    requires VolumesReply(env, h, SelectionReply(env, h), items) != ""
    ensures var sel := SelectionReply(env, h);
            var labels := FetchLabels(env, VolumesNeeded(VolumesReply(env, h, sel, items)), h + Listed(env, sel, items), []);
            RestoreFile(env, path, items, h).outcome == SubmitOutcome(env, h, sel, items, labels)
  {
  }

  lemma CountedLead(env: Env, h: seq<Event>, sel: string, items: seq<string>)
    ensures Counted(env, sel, items) == [Call(CreateSelection)] + Lead(env, h, sel, items, NoEntries)
  {
    var finds := FindEntryCalls(sel, env.conf.archiveId, items);
    var create := [Call(CreateSelection)];
    var count := [Call(ListEntries(sel))];
    assert Counted(env, sel, items) == create + finds + count;
    ConcatAssoc(create, finds, count, [], []);
    assert Lead(env, h, sel, items, NoEntries) == finds + count + [] + [];
  }

  lemma ListedLead(env: Env, h: seq<Event>, sel: string, items: seq<string>)
    ensures Listed(env, sel, items) + [Call(LastError)] == [Call(CreateSelection)] + Lead(env, h, sel, items, NoVolumes)
  {
    var finds := FindEntryCalls(sel, env.conf.archiveId, items);
    var create := [Call(CreateSelection)];
    var count := [Call(ListEntries(sel))];
    var list := [Call(ListVolumes(sel))];
    var last := [Call(LastError)];
    assert Listed(env, sel, items) + last == create + finds + count + list + last;
    ConcatAssoc(create, finds, count, list, last);
    assert Lead(env, h, sel, items, NoVolumes) == finds + count + list + last;
  }

  lemma LabelledLead(env: Env, h: seq<Event>, sel: string, items: seq<string>, o: FileOutcome)
    requires !o.NoEntries? && !o.NoVolumes?
    ensures Labelled(env, h, sel, items) == [Call(CreateSelection)] + Lead(env, h, sel, items, o)
  {
    var finds := FindEntryCalls(sel, env.conf.archiveId, items);
    var create := [Call(CreateSelection)];
    var count := [Call(ListEntries(sel))];
    var list := [Call(ListVolumes(sel))];
    var labels := LabelCalls(VolumesNeeded(VolumesReply(env, h, sel, items)));
    assert Labelled(env, h, sel, items) == create + finds + count + list + labels;
    ConcatAssoc(create, finds, count, list, labels);
    assert Lead(env, h, sel, items, o) == finds + count + list + labels;
  }
  /**
   The commands a file causes: the selection is created once, at the start; every later
   selection command names the selection that was created; nothing is described or
   destroyed; and a submit is issued exactly when the outcome is a submit result, never
   in a dry run.
   */
  lemma RestoreFileTrace(env: Env, path: string, items: seq<string>, h: seq<Event>)
    ensures var r := RestoreFile(env, path, items, h);
            && NoDescribeOrDestroy(r.events)
            && NoConnectionCheck(r.events)
            && NoSelectionCreated(r.events[1..])
            && OnlySelection(r.events, SelectionReply(env, h))
            && (NoSubmit(r.events) <==> !(r.outcome.Submitted? || r.outcome.SubmitFailed?))
            && (env.dry ==> NoSubmit(r.events))
  {
    var r := RestoreFile(env, path, items, h);
    var sel := SelectionReply(env, h);
    if sel == "" {
      NoSelectionShape(sel);
    } else {
      RestoreFileShape(env, path, items, h);
      LeadProbes(env, h, sel, items, r.outcome);
      TailShape(env, path, sel, r.outcome);
      ShapeFacts(r.events, sel, Lead(env, h, sel, items, r.outcome), SubmitTail(env, path, sel, r.outcome));
    }
    DryNoSubmitResult(env, path, items, h);
  }

  /** A dry run never reaches the submit. */
  lemma DryNoSubmitResult(env: Env, path: string, items: seq<string>, h: seq<Event>)
    ensures env.dry ==> !(RestoreFile(env, path, items, h).outcome.Submitted? || RestoreFile(env, path, items, h).outcome.SubmitFailed?)
  {
    var sel := SelectionReply(env, h);
    if sel != "" && !IsMiss(EntriesReply(env, h, sel, items)) && VolumesReply(env, h, sel, items) != "" {
      LabelledOutcome(env, path, items, h);
    }
  }

  /** One pass of the file loop: dispatch, parse, and on success the restore protocol. */
  function ProcessFile(env: Env, dir: string, f: MediaFile, h: seq<Event>): (r: FileStep)
    requires FileUsable(dir, f)
    ensures r.outcome.ParseFailed? <==> SearchList(dir, f)[0] == "ERROR"
    ensures r.outcome.ParseFailed? ==> r.events == [] && r.misses == [] && r.outcome.reason == SearchList(dir, f)[1]
    ensures !r.outcome.ParseFailed? ==> |r.events| > 0 && r.events[0] == Call(CreateSelection)
    ensures NoDescribeOrDestroy(r.events) && NoConnectionCheck(r.events)
    ensures env.dry ==> NoSubmit(r.events) && PlacementOf(r.outcome) != MovedToFinished
  {
    var items := SearchList(dir, f);
    if items[0] == "ERROR" then FileStep(ParseFailed(items[1]), [], [])
    else
      RestoreFileTrace(env, PathOf(dir, f), items, h);
      RestoreFile(env, PathOf(dir, f), items, h)
  }

  /** The file loop, from history `h`: the events it adds and one outcome per file. */
  function ProcessAll(env: Env, dir: string, files: seq<MediaFile>, h: seq<Event>): (r: (seq<Event>, seq<FileOutcome>))
    requires forall k :: 0 <= k < |files| ==> FileUsable(dir, files[k])
    ensures |r.1| == |files|
    ensures forall k :: 0 <= k < |files| ==> FileUsable(dir, files[k]) && (r.1[k].ParseFailed? <==> SearchList(dir, files[k])[0] == "ERROR")
    ensures NoDescribeOrDestroy(r.0) && NoConnectionCheck(r.0)
    ensures env.dry ==> NoSubmit(r.0) && forall k :: 0 <= k < |files| ==> PlacementOf(r.1[k]) != MovedToFinished
    decreases |files|
  {
    if |files| == 0 then ([], [])
    else
      var step := ProcessFile(env, dir, files[0], h);
      var rest := ProcessAll(env, dir, files[1..], h + step.events);
      var outcomes := [step.outcome] + rest.1;
      EventFactsAppend(step.events, rest.0, "");
      OutcomesCons(dir, files, step.outcome, rest.1, env.dry);
      (step.events + rest.0, outcomes)
  }

  /** The per-file facts of the loop, for one more file in front. */
  lemma OutcomesCons(dir: string, files: seq<MediaFile>, o: FileOutcome, rest: seq<FileOutcome>, dry: bool)
    requires |files| > 0 && |rest| == |files| - 1
    requires forall k :: 0 <= k < |files| ==> FileUsable(dir, files[k])
    requires FileUsable(dir, files[0]) && (o.ParseFailed? <==> SearchList(dir, files[0])[0] == "ERROR")
    requires forall k :: 0 <= k < |files| - 1 ==>
               FileUsable(dir, files[1..][k]) && (rest[k].ParseFailed? <==> SearchList(dir, files[1..][k])[0] == "ERROR")
    requires dry ==> PlacementOf(o) != MovedToFinished && forall k :: 0 <= k < |rest| ==> PlacementOf(rest[k]) != MovedToFinished
    ensures forall k :: 0 <= k < |files| ==>
              FileUsable(dir, files[k]) && (([o] + rest)[k].ParseFailed? <==> SearchList(dir, files[k])[0] == "ERROR")
    ensures dry ==> forall k :: 0 <= k < |files| ==> PlacementOf(([o] + rest)[k]) != MovedToFinished
  {
    var outcomes := [o] + rest;
    forall k | 0 < k < |files| ensures files[k] == files[1..][k - 1] && outcomes[k] == rest[k - 1] {
    }
  }

  /** `read_conf` succeeded, and the archive ID it read is not the text `ERROR` that `main` takes for a failed read. */
  predicate ConfLoaded(conf: Result<Config>)
  {
    conf.Ok? && conf.value.archiveId != "ERROR"
  }

  /**
   `main`: check the configuration, list the files, check the connection once, then run the file loop;
   no later event is a connection check.
   The files are parsed only when the loop runs, so only then must they be usable.
   */
  function Main(conf: Result<Config>, flags: Flags, dir: string, listing: seq<MediaFile>, svc: Service): (r: Run)
    requires ConfLoaded(conf) && !flags.mailOnly && svc([], ServerHostname) == "" ==>
               forall f :: f in BatchFiles(listing) ==> FileUsable(dir, f)
    ensures r.exitCode == 0 || r.exitCode == 1
    ensures r.exitCode == 0 <==> ConfLoaded(conf) && (flags.mailOnly || (|BatchFiles(listing)| > 0 && svc([], ServerHostname) == ""))
    ensures r.exitCode == 1 ==> r.outcomes == [] && NoSelectionCreated(r.trace)
    ensures !ConfLoaded(conf) ==> r.trace == []
    ensures ConfLoaded(conf) && !flags.mailOnly && |BatchFiles(listing)| == 0 ==> r.trace == []
    ensures ConfLoaded(conf) && !flags.mailOnly && |BatchFiles(listing)| > 0 ==> |r.trace| > 0 && r.trace[0] == Call(ServerHostname)
    ensures r.exitCode == 0 && !flags.mailOnly ==> |r.outcomes| == |BatchFiles(listing)|
    ensures NoDescribeOrDestroy(r.trace)
    ensures forall i :: 0 < i < |r.trace| ==> r.trace[i] != Call(ServerHostname)
    ensures flags.dry ==> NoSubmit(r.trace) && forall o :: o in r.outcomes ==> PlacementOf(o) != MovedToFinished
  {
    if !ConfLoaded(conf) then Run(1, [], [])
    else
      var c := conf.value;
      if flags.mailOnly then Run(0, [Mail(c.mail, "Test-Mail", "Mail notification works.")], [])
      else
        var files := BatchFiles(listing);
        if |files| == 0 then Run(1, [], [])
        else if svc([], ServerHostname) != "" then Run(1, [Call(ServerHostname)], [])
        else
          var env := Env(c, flags.dry, svc);
          UsableIndexed(dir, files);
          var loop := ProcessAll(env, dir, files, [Call(ServerHostname)]);
          LoopTraceFacts(env, dir, files);
          Run(0, [Call(ServerHostname)] + loop.0, loop.1)
  }

  lemma UsableIndexed(dir: string, files: seq<MediaFile>)
    requires forall f :: f in files ==> FileUsable(dir, f)
    ensures forall k :: 0 <= k < |files| ==> FileUsable(dir, files[k])
  {
    forall k | 0 <= k < |files| ensures FileUsable(dir, files[k]) {
      assert files[k] in files;
    }
  }

  /** What the trace of a completed run inherits from the file loop. */
  lemma LoopTraceFacts(env: Env, dir: string, files: seq<MediaFile>)
    requires forall k :: 0 <= k < |files| ==> FileUsable(dir, files[k])
    ensures var loop := ProcessAll(env, dir, files, [Call(ServerHostname)]);
            var t := [Call(ServerHostname)] + loop.0;
            && |t| > 0 && t[0] == Call(ServerHostname) && |loop.1| == |files|
            && NoDescribeOrDestroy(t)
            && (forall i :: 0 < i < |t| ==> t[i] != Call(ServerHostname))
            && (env.dry ==> NoSubmit(t) && forall o :: o in loop.1 ==> PlacementOf(o) != MovedToFinished)
  {
    var loop := ProcessAll(env, dir, files, [Call(ServerHostname)]);
    var t := [Call(ServerHostname)] + loop.0;
    EventFactsAppend([Call(ServerHostname)], loop.0, "");
    forall i | 0 < i < |t| ensures t[i] != Call(ServerHostname) {
      assert t[i] == loop.0[i - 1];
    }
  }

  // ---------------------------------------------------------------------------
  // Dispatch on the path
  // ---------------------------------------------------------------------------

  /** With no dot in the directory or the stem, the extension alone picks the parser, and only a lower-case `ale` picks `parse_ale`. */
  lemma DispatchByExtension(dir: string, stem: string, ext: string)
    requires '.' !in dir && '.' !in stem && '.' !in ext
    ensures '.' in dir + "/restore/" + stem + "." + ext
    ensures ReadAsAle(dir + "/restore/" + stem + "." + ext) <==> ext == "ale"
  {
    var a := dir + "/restore/" + stem;
    assert '.' !in a by {
      forall i | 0 <= i < |a| ensures a[i] != '.' {
        if i < |dir| { assert a[i] == dir[i]; }
        else if i < |dir| + 9 { assert a[i] == "/restore/"[i - |dir|]; }
        else { assert a[i] == stem[i - |dir| - 9]; }
      }
    }
    assert dir + "/restore/" + stem + "." + ext == a + ['.'] + ext;
    SplitHead(a, '.', ext);
    SplitWhole(ext, '.');
  }

  /** The glob admits `clip.ALE`, and the dispatch then hands it to the AAF parser. */
  lemma UpperCaseAleReadAsAaf(dir: string)
    requires '.' !in dir
    ensures GlobMatches("clip.ALE", "ale")
    ensures '.' in PathOf(dir, MediaFile("clip.ALE", Err(""), Err(""))) && !ReadAsAle(PathOf(dir, MediaFile("clip.ALE", Err(""), Err(""))))
  {
    ClipName();
    PathOfParts(dir, "clip", "ALE", MediaFile("clip.ALE", Err(""), Err("")));
    DispatchByExtension(dir, "clip", "ALE");
  }

  lemma ClipName()
    ensures "clip.ALE" == "clip" + "." + "ALE" && '.' !in "clip" && '.' !in "ALE" && "ALE" != "ale"
    ensures GlobMatches("clip.ALE", "ale")
  {
  }

  lemma PathOfParts(dir: string, stem: string, ext: string, f: MediaFile)
    requires f.name == stem + "." + ext
    ensures PathOf(dir, f) == dir + "/restore/" + stem + "." + ext
  {
  }

  /**
   With exactly one dot in the application directory the split lands inside the directory:
   no file goes to `parse_ale`, whatever its name, `.ale` included.
   */
  lemma DottedDirectoryReadsAsAaf(d1: string, d2: string, name: string)
    requires '.' !in d1 && '.' !in d2
    ensures '.' in d1 + "." + d2 + "/restore/" + name
    ensures !ReadAsAle(d1 + "." + d2 + "/restore/" + name)
  {
    var b := d2 + "/restore/" + name;
    assert d1 + "." + d2 + "/restore/" + name == d1 + ['.'] + b;
    ReadAsAleIff(d1, b);
    assert b[3] != '.' by {
      if 3 < |d2| { assert b[3] == d2[3]; }
      else { assert b[3] == "/restore/"[3 - |d2|]; }
    }
  }

  /**
   With two or more dots in the application directory, the part between its first two
   dots decides for every file: all go to `parse_ale` when it is `ale`, none otherwise.
   */
  lemma DirectoryPartDecides(d1: string, part: string, d3: string, name: string)
    requires '.' !in d1 && '.' !in part
    ensures '.' in d1 + "." + part + "." + d3 + "/restore/" + name
    ensures ReadAsAle(d1 + "." + part + "." + d3 + "/restore/" + name) <==> part == "ale"
  {
    var rest := d3 + "/restore/" + name;
    var b := part + ['.'] + rest;
    var path := d1 + "." + part + "." + d3 + "/restore/" + name;
    assert path == d1 + ['.'] + b;
    assert path[|d1|] == '.';
    SplitHead(d1, '.', b);
    SplitHead(part, '.', rest);
    assert Split(path, '.')[1] == part;
  }

  // ---------------------------------------------------------------------------
  // The protocol of one file
  // ---------------------------------------------------------------------------

  /** `main` tests the Python list, so an ALE whose first item is the word `ERROR` is taken for a failed parse. */
  lemma SentinelCollision(env: Env, dir: string, f: MediaFile, h: seq<Event>, items: seq<string>)
    requires FileUsable(dir, f) && ReadAsAle(PathOf(dir, f))
    requires f.lines.Ok? && ParseAle(f.lines.value) == Ok(items) && items[0] == "ERROR"
    ensures |items| >= 2
    ensures ProcessFile(env, dir, f, h) == FileStep(ParseFailed(items[1]), [], [])
  {
  }

  /** Every item is searched for, in order, against the selection just created, right after it is created. */
  lemma RestoreFileSearchOrder(env: Env, path: string, items: seq<string>, h: seq<Event>)
    requires SelectionReply(env, h) != ""
    ensures var r := RestoreFile(env, path, items, h);
            && |r.events| > |items|
            && forall k :: 0 <= k < |items| ==> r.events[1 + k] == Call(FindEntry(SelectionReply(env, h), env.conf.archiveId, items[k]))
  {
    var sel := SelectionReply(env, h);
    var r := RestoreFile(env, path, items, h);
    RestoreFileShape(env, path, items, h);
    var lead := Lead(env, h, sel, items, r.outcome);
    LeadFinds(env, h, sel, items, r.outcome);
    InsideShift(r.events, lead, SubmitTail(env, path, sel, r.outcome), Call(CreateSelection));
  }

  /** The probes start with the find-entry commands, one per item, in item order. */
  lemma LeadFinds(env: Env, h: seq<Event>, sel: string, items: seq<string>, o: FileOutcome)
    ensures var lead := Lead(env, h, sel, items, o);
            && |lead| > |items|
            && forall k :: 0 <= k < |items| ==> lead[k] == Call(FindEntry(sel, env.conf.archiveId, items[k]))
  {
    var finds := FindEntryCalls(sel, env.conf.archiveId, items);
    var count := [Call(ListEntries(sel))];
    var mid := if o.NoEntries? then [] else [Call(ListVolumes(sel))];
    var last := if o.NoVolumes? then [Call(LastError)] else if o.NoEntries? then [] else LabelCalls(VolumesNeeded(VolumesReply(env, h, sel, items)));
    assert Lead(env, h, sel, items, o) == finds + count + mid + last;
    ConcatAssoc(finds, count, mid, last, []);
    AppendEmpty(last);
    PrefixAt(finds, count + mid + last);
  }

  /** Without a selection ID, the file gets only the error query: nothing is searched, counted, listed or submitted, and the file stays. */
  lemma RestoreFileNoSelection(env: Env, path: string, items: seq<string>, h: seq<Event>)
    requires SelectionReply(env, h) == ""
    ensures var r := RestoreFile(env, path, items, h);
            r.events == [Call(CreateSelection), Call(LastError)] && r.misses == [] && PlacementOf(r.outcome) == LeftInPlace
  {
  }

  lemma QuotedSetOfPermutation(a: seq<string>, b: seq<string>)
    requires multiset(a) == multiset(b)
    ensures QuotedSet(a) == QuotedSet(b)
  {
    forall v | v in a ensures v in b { assert v in multiset(a); }
    forall v | v in b ensures v in a { assert v in multiset(b); }
  }

  /** Once the volumes are listed, one label is queried per listed volume, in ascending order, right after the volume query. */
  lemma RestoreFileLabelOrder(env: Env, path: string, items: seq<string>, h: seq<Event>)
    requires SelectionReply(env, h) != "" && !IsMiss(EntriesReply(env, h, SelectionReply(env, h), items))
    requires VolumesReply(env, h, SelectionReply(env, h), items) != ""
    ensures var r := RestoreFile(env, path, items, h);
            var sel := SelectionReply(env, h);
            var vols := VolumesNeeded(VolumesReply(env, h, sel, items));
            && Sorted(vols) && multiset(vols) == multiset(Split(Chomp(VolumesReply(env, h, sel, items)), ' '))
            && |r.events| >= |items| + 3 + |vols|
            && r.events[|items| + 2] == Call(ListVolumes(sel))
            && r.events[|items| + 3..|items| + 3 + |vols|] == LabelCalls(vols)
  {
    var r := RestoreFile(env, path, items, h);
    var sel := SelectionReply(env, h);
    var vols := VolumesNeeded(VolumesReply(env, h, sel, items));
    LabelledStep(env, path, items, h);
    RestoreFileShape(env, path, items, h);
    LeadLabels(env, h, sel, items, r.outcome);
    LabelRun(r.events, Lead(env, h, sel, items, r.outcome), SubmitTail(env, path, sel, r.outcome), |items|, sel, vols);
  }

  /** The volume query and the label queries, moved one place on by the leading create. */
  lemma LabelRun(e: seq<Event>, lead: seq<Event>, tail: seq<Event>, n: nat, sel: string, vols: seq<string>)
    requires e == [Call(CreateSelection)] + lead + tail
    requires |lead| == n + 2 + |vols| && lead[n + 1] == Call(ListVolumes(sel)) && lead[n + 2..] == LabelCalls(vols)
    ensures |e| >= n + 3 + |vols| && e[n + 2] == Call(ListVolumes(sel))
    ensures e[n + 3..n + 3 + |vols|] == LabelCalls(vols)
  {
    ShiftedRun(e, Call(CreateSelection), lead, tail, n + 1, Call(ListVolumes(sel)), LabelCalls(vols));
  }

  lemma LeadLabels(env: Env, h: seq<Event>, sel: string, items: seq<string>, o: FileOutcome)
    requires !o.NoEntries? && !o.NoVolumes?
    ensures var vols := VolumesNeeded(VolumesReply(env, h, sel, items));
            var lead := Lead(env, h, sel, items, o);
            && |lead| == |items| + 2 + |vols|
            && lead[|items| + 1] == Call(ListVolumes(sel))
            && lead[|items| + 2..] == LabelCalls(vols)
  {
    var vols := VolumesNeeded(VolumesReply(env, h, sel, items));
    var finds := FindEntryCalls(sel, env.conf.archiveId, items);
    var labels := LabelCalls(vols);
    var lead := Lead(env, h, sel, items, o);
    assert lead == finds + [Call(ListEntries(sel))] + [Call(ListVolumes(sel))] + labels;
    TwoThenRest(lead, finds, Call(ListEntries(sel)), Call(ListVolumes(sel)), labels);
  }

  /** The dict of labels that a dry run reports and a submit mails holds exactly one entry per distinct listed volume. */
  lemma RestoreFileLabelKeys(env: Env, path: string, items: seq<string>, h: seq<Event>)
    requires SelectionReply(env, h) != "" && !IsMiss(EntriesReply(env, h, SelectionReply(env, h), items))
    requires VolumesReply(env, h, SelectionReply(env, h), items) != ""
    requires env.dry || JobReply(env, h, SelectionReply(env, h), items) != ""
    ensures var r := RestoreFile(env, path, items, h);
            var sel := SelectionReply(env, h);
            && (r.outcome.DryRunDone? || r.outcome.Submitted?)
            && Keys(r.outcome.volumes) == QuotedSet(Split(Chomp(VolumesReply(env, h, sel, items)), ' '))
            && DistinctKeys(r.outcome.volumes)
  {
    var sel := SelectionReply(env, h);
    LabelledOutcome(env, path, items, h);
    var raw := VolumesReply(env, h, sel, items);
    FreshLabelKeys(env, VolumesNeeded(raw), Split(Chomp(raw), ' '), h + Listed(env, sel, items));
  }

  /** Fetching the labels of a permutation of the listed volumes yields one key per distinct listed volume. */
  lemma FreshLabelKeys(env: Env, vols: seq<string>, listed: seq<string>, h: seq<Event>)
    requires multiset(vols) == multiset(listed)
    ensures var labels := FetchLabels(env, vols, h, []);
            Keys(labels) == QuotedSet(listed) && DistinctKeys(labels)
  {
    EmptyLabels();
    FetchLabelsKeys(env, vols, h, []);
    assert {} + QuotedSet(vols) == QuotedSet(vols);
    QuotedSetOfPermutation(vols, listed);
  }

  lemma EmptyLabels()
    ensures Keys([]) == {} && DistinctKeys([])
  {
  }

  /**
   How a file whose parse succeeded ends, in terms of the service's replies: a submit is
   attempted exactly when the selection was created, it holds entries, the volume reply is
   not empty and the run is not dry; the submit fails exactly when its reply is blank.
   */
  lemma RestoreFileOutcome(env: Env, path: string, items: seq<string>, h: seq<Event>)
    ensures var r := RestoreFile(env, path, items, h);
            var sel := SelectionReply(env, h);
            && (r.outcome == NoEntries <==> sel != "" && IsMiss(EntriesReply(env, h, sel, items)))
            && (r.outcome == NoVolumes <==> sel != "" && !IsMiss(EntriesReply(env, h, sel, items)) && VolumesReply(env, h, sel, items) == "")
            && ((r.outcome.Submitted? || r.outcome.SubmitFailed?) <==>
                  sel != "" && !IsMiss(EntriesReply(env, h, sel, items)) && VolumesReply(env, h, sel, items) != "" && !env.dry)
            && (r.outcome.SubmitFailed? ==> AllIn(env.svc(h + Labelled(env, h, sel, items), Submit(sel)), Whitespace))
            && (r.outcome.Submitted? ==> !AllIn(env.svc(h + Labelled(env, h, sel, items), Submit(sel)), Whitespace))
  {
    var sel := SelectionReply(env, h);
    if sel != "" && !IsMiss(EntriesReply(env, h, sel, items)) && VolumesReply(env, h, sel, items) != "" && !env.dry {
      var raw := env.svc(h + Labelled(env, h, sel, items), Submit(sel));
      assert JobReply(env, h, sel, items) == "" <==> AllIn(raw, Whitespace);
    }
  }

  /**
   Where one pass of the loop leaves the file: in `failed/` exactly when its list failed the
   sentinel test; in `../finished` exactly when the selection was created, holds entries and
   has volumes, the run is not dry, and the submit's reply is not all whitespace.
   */
  lemma ProcessFilePlacement(env: Env, dir: string, f: MediaFile, h: seq<Event>)
    requires FileUsable(dir, f)
    ensures var p := PlacementOf(ProcessFile(env, dir, f, h).outcome);
            var items := SearchList(dir, f);
            var sel := SelectionReply(env, h);
            && (p == MovedToFailed <==> items[0] == "ERROR")
            && (p == MovedToFinished <==>
                  && items[0] != "ERROR" && sel != "" && !IsMiss(EntriesReply(env, h, sel, items))
                  && VolumesReply(env, h, sel, items) != "" && !env.dry
                  && !AllIn(env.svc(h + Labelled(env, h, sel, items), Submit(sel)), Whitespace))
  {
    var items := SearchList(dir, f);
    if items[0] != "ERROR" {
      RestoreFileOutcome(env, PathOf(dir, f), items, h);
    }
  }

  // ---------------------------------------------------------------------------
  // Counting commands over a run
  // ---------------------------------------------------------------------------

  /** How many restore selections `events` create. */
  function Creations(events: seq<Event>): nat
  {
    if |events| == 0 then 0
    else (if events[0] == Call(CreateSelection) then 1 else 0) + Creations(events[1..])
  }

  /** How many submits `events` issue. */
  function Submissions(events: seq<Event>): nat
  {
    if |events| == 0 then 0
    else (if events[0].Call? && events[0].cmd.Submit? then 1 else 0) + Submissions(events[1..])
  }

  lemma {:induction false} CountsAppend(a: seq<Event>, b: seq<Event>)
    ensures Creations(a + b) == Creations(a) + Creations(b)
    ensures Submissions(a + b) == Submissions(a) + Submissions(b)
    decreases |a|
  {
    if |a| > 0 {
      assert (a + b)[1..] == a[1..] + b;
      CountsAppend(a[1..], b);
    } else {
      assert a + b == b;
    }
  }

  lemma {:induction false} CountsNone(events: seq<Event>)
    requires NoSelectionCreated(events)
    ensures Creations(events) == 0
    ensures NoSubmit(events) <==> Submissions(events) == 0
    decreases |events|
  {
    if |events| > 0 {
      CountsNone(events[1..]);
      assert NoSubmit(events) <==> NoSubmit(events[1..]) && !(events[0].Call? && events[0].cmd.Submit?) by {
        assert events == [events[0]] + events[1..];
        EventFactsAppend([events[0]], events[1..], "");
      }
    }
  }

  /** Outcomes of files that got as far as creating a selection. */
  function Attempts(outcomes: seq<FileOutcome>): nat
  {
    if |outcomes| == 0 then 0
    else (if outcomes[0].ParseFailed? then 0 else 1) + Attempts(outcomes[1..])
  }

  /** Outcomes of files whose selection was submitted. */
  function SubmitResults(outcomes: seq<FileOutcome>): nat
  {
    if |outcomes| == 0 then 0
    else (if outcomes[0].Submitted? || outcomes[0].SubmitFailed? then 1 else 0) + SubmitResults(outcomes[1..])
  }

  /** Outcomes of files that move to `../finished`. */
  function Finished(outcomes: seq<FileOutcome>): nat
  {
    if |outcomes| == 0 then 0
    else (if PlacementOf(outcomes[0]) == MovedToFinished then 1 else 0) + Finished(outcomes[1..])
  }

  /** Only a submitted job moves its file to `../finished`, so no more files finish than were submitted. */
  lemma {:induction false} FinishedAtMostSubmits(outcomes: seq<FileOutcome>)
    ensures Finished(outcomes) <= SubmitResults(outcomes)
  {
    if |outcomes| > 0 {
      FinishedAtMostSubmits(outcomes[1..]);
    }
  }

  lemma ShapeCounts(e: seq<Event>, sel: string, lead: seq<Event>, tail: seq<Event>)
    requires e == [Call(CreateSelection)] + lead + tail
    requires Probes(lead, sel)
    requires tail == [] || (|tail| == 2 && tail[0] == Call(Submit(sel)) && tail[1].Mail?)
    ensures Creations(e) == 1
    ensures Submissions(e) == if tail == [] then 0 else 1
  {
    ProbesFacts(lead, sel);
    CountsNone(lead);
    CountsAppend([Call(CreateSelection)] + lead, tail);
    CountsAppend([Call(CreateSelection)], lead);
    if tail != [] {
      assert tail[1..][1..] == [];
    }
  }

  lemma NoSelectionCounts()
    ensures Creations([Call(CreateSelection), Call(LastError)]) == 1
    ensures Submissions([Call(CreateSelection), Call(LastError)]) == 0
  {
    assert [Call(CreateSelection), Call(LastError)][1..] == [Call(LastError)];
    assert [Call(LastError)][1..] == [];
  }

  /** A file that parsed creates exactly one selection and submits it at most once. */
  lemma FileCounts(env: Env, dir: string, f: MediaFile, h: seq<Event>)
    requires FileUsable(dir, f)
    ensures var r := ProcessFile(env, dir, f, h);
            && Creations(r.events) == (if r.outcome.ParseFailed? then 0 else 1)
            && Submissions(r.events) == (if r.outcome.Submitted? || r.outcome.SubmitFailed? then 1 else 0)
  {
    var items := SearchList(dir, f);
    if items[0] != "ERROR" {
      RestoreFileCounts(env, PathOf(dir, f), items, h);
    }
  }

  /** The restore protocol creates one selection and submits it at most once. */
  lemma RestoreFileCounts(env: Env, path: string, items: seq<string>, h: seq<Event>)
    ensures var r := RestoreFile(env, path, items, h);
            && Creations(r.events) == 1
            && Submissions(r.events) == (if r.outcome.Submitted? || r.outcome.SubmitFailed? then 1 else 0)
  {
    var r := RestoreFile(env, path, items, h);
    var sel := SelectionReply(env, h);
    if sel == "" {
      NoSelectionCounts();
    } else {
      RestoreFileShape(env, path, items, h);
      LeadProbes(env, h, sel, items, r.outcome);
      TailShape(env, path, sel, r.outcome);
      ShapeCounts(r.events, sel, Lead(env, h, sel, items, r.outcome), SubmitTail(env, path, sel, r.outcome));
    }
  }

  lemma TailShape(env: Env, path: string, sel: string, o: FileOutcome)
    ensures var tail := SubmitTail(env, path, sel, o);
            && (tail == [] <==> !(o.Submitted? || o.SubmitFailed?))
            && (tail == [] || (|tail| == 2 && tail[0] == Call(Submit(sel)) && tail[1].Mail?))
  {
  }

  /** Over the file loop: one selection per file that parsed, one submit per file with a submit result. */
  lemma {:induction false} ProcessAllCounts(env: Env, dir: string, files: seq<MediaFile>, h: seq<Event>)
    requires forall k :: 0 <= k < |files| ==> FileUsable(dir, files[k])
    ensures var r := ProcessAll(env, dir, files, h);
            Creations(r.0) == Attempts(r.1) && Submissions(r.0) == SubmitResults(r.1)
    decreases |files|
  {
    if |files| > 0 {
      var step := ProcessFile(env, dir, files[0], h);
      UsableTail(dir, files);
      var rest := ProcessAll(env, dir, files[1..], h + step.events);
      ProcessAllCons(env, dir, files, h);
      ProcessAllCounts(env, dir, files[1..], h + step.events);
      FileCounts(env, dir, files[0], h);
      CountsAppend(step.events, rest.0);
      OutcomeCountsCons(step.outcome, rest.1);
    }
  }

  lemma UsableTail(dir: string, files: seq<MediaFile>)
    requires |files| > 0 && forall k :: 0 <= k < |files| ==> FileUsable(dir, files[k])
    ensures FileUsable(dir, files[0]) && forall k :: 0 <= k < |files[1..]| ==> FileUsable(dir, files[1..][k])
  {
    forall k | 0 <= k < |files[1..]| ensures FileUsable(dir, files[1..][k]) {
      assert files[1..][k] == files[k + 1];
    }
  }

  /** The loop handles the first file, then the rest from where it left the history. */
  lemma ProcessAllCons(env: Env, dir: string, files: seq<MediaFile>, h: seq<Event>)
    requires |files| > 0 && forall k :: 0 <= k < |files| ==> FileUsable(dir, files[k])
    ensures forall k :: 0 <= k < |files[1..]| ==> FileUsable(dir, files[1..][k])
    ensures var step := ProcessFile(env, dir, files[0], h);
            var rest := ProcessAll(env, dir, files[1..], h + step.events);
            ProcessAll(env, dir, files, h) == (step.events + rest.0, [step.outcome] + rest.1)
  {
    UsableTail(dir, files);
  }

  lemma OutcomeCountsCons(o: FileOutcome, rest: seq<FileOutcome>)
    ensures Attempts([o] + rest) == (if o.ParseFailed? then 0 else 1) + Attempts(rest)
    ensures SubmitResults([o] + rest) == (if o.Submitted? || o.SubmitFailed? then 1 else 0) + SubmitResults(rest)
  {
    assert ([o] + rest)[1..] == rest;
  }

  // ---------------------------------------------------------------------------
  // The whole run
  // ---------------------------------------------------------------------------

  /** A connection check that answers anything at all, even a host name, ends the run after that one command. */
  lemma MainConnectionFatal(conf: Config, flags: Flags, dir: string, listing: seq<MediaFile>, svc: Service)
    requires conf.archiveId != "ERROR"
    requires !flags.mailOnly && |BatchFiles(listing)| > 0 && svc([], ServerHostname) != ""
    ensures Main(Ok(conf), flags, dir, listing, svc) == Run(1, [Call(ServerHostname)], [])
  {
  }

  /**
   A configuration that loads with the archive ID `ERROR` is taken for a failed read:
   the run ends with exit code 1 before anything else happens, even with `--mail`.
   */
  lemma ArchiveIdSentinel(nsdchat: seq<string>, mail: seq<string>, flags: Flags, dir: string, listing: seq<MediaFile>, svc: Service)
    ensures Main(Ok(Config("ERROR", nsdchat, mail)), flags, dir, listing, svc) == Run(1, [], [])
  {
  }

  /**
   In any run, the selections created match the files that parsed, and the submits
   match the files whose selection was submitted; at most that many files move to `finished`.
   */
  lemma MainCounts(conf: Config, flags: Flags, dir: string, listing: seq<MediaFile>, svc: Service)
    requires !flags.mailOnly && svc([], ServerHostname) == "" ==> forall f :: f in BatchFiles(listing) ==> FileUsable(dir, f)
    ensures var r := Main(Ok(conf), flags, dir, listing, svc);
            && Creations(r.trace) == Attempts(r.outcomes)
            && Submissions(r.trace) == SubmitResults(r.outcomes)
            && Finished(r.outcomes) <= SubmitResults(r.outcomes)
  {
    var r := Main(Ok(conf), flags, dir, listing, svc);
    FinishedAtMostSubmits(r.outcomes);
    if conf.archiveId != "ERROR" && !flags.mailOnly && |BatchFiles(listing)| > 0 && svc([], ServerHostname) == "" {
      LoopCounts(conf, flags, dir, listing, svc);
    } else {
      EarlyExitTrace(conf, flags, dir, listing, svc);
    }
  }

  /** A run that stops before the file loop issues at most the connection check or the test mail. */
  lemma EarlyExitTrace(conf: Config, flags: Flags, dir: string, listing: seq<MediaFile>, svc: Service)
    requires !(conf.archiveId != "ERROR" && !flags.mailOnly && |BatchFiles(listing)| > 0 && svc([], ServerHostname) == "")
    ensures var r := Main(Ok(conf), flags, dir, listing, svc);
            && r.outcomes == [] && Creations(r.trace) == 0 && Submissions(r.trace) == 0
  {
  }

  lemma LoopCounts(conf: Config, flags: Flags, dir: string, listing: seq<MediaFile>, svc: Service)
    requires conf.archiveId != "ERROR" && !flags.mailOnly && |BatchFiles(listing)| > 0 && svc([], ServerHostname) == ""
    requires forall f :: f in BatchFiles(listing) ==> FileUsable(dir, f)
    ensures var r := Main(Ok(conf), flags, dir, listing, svc);
            && Creations(r.trace) == Attempts(r.outcomes)
            && Submissions(r.trace) == SubmitResults(r.outcomes)
  {
    var files := BatchFiles(listing);
    var env := Env(conf, flags.dry, svc);
    assert forall k :: 0 <= k < |files| ==> files[k] in files;
    ProcessAllCounts(env, dir, files, [Call(ServerHostname)]);
    var loop := ProcessAll(env, dir, files, [Call(ServerHostname)]);
    CountsAppend([Call(ServerHostname)], loop.0);
  }
}

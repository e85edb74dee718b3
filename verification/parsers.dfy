/**
 The metadata parsers of pyp5.py, over the list of lines `readlines()` returns.
 A file that cannot be opened is passed in as an `Err` carrying the I/O error text.
 */
module Parsers {
  import opened Results
  import opened Text
  import opened Seqs

  const ColumnMarker: string := "Column"
  const DataMarker: string := "Data"
  const SourceFileLabel: string := "Source File"
  const NoItemsMessage: string := "No search items found."

  // ---------------------------------------------------------------------------
  // ALE: a tab-separated table announced by a `Column` line and a `Data` line.
  // ---------------------------------------------------------------------------

  /** The first line at or after `i` that contains `Data`. */
  function FirstDataFrom(lines: seq<string>, i: nat): (r: Option<nat>)
    requires i <= |lines|
    ensures r.Some? ==> i <= r.value < |lines| && Contains(lines[r.value], DataMarker)
    ensures r.Some? ==> forall j :: i <= j < r.value ==> !Contains(lines[j], DataMarker)
    ensures r.None? ==> forall j :: i <= j < |lines| ==> !Contains(lines[j], DataMarker)
    decreases |lines| - i
  {
    if i == |lines| then None
    else if Contains(lines[i], DataMarker) then Some(i)
    else FirstDataFrom(lines, i + 1)
  }

  /** The index of the first line containing `Data`, if any. */
  function FirstData(lines: seq<string>): Option<nat>
  {
    FirstDataFrom(lines, 0)
  }

  /**
   The scan reads the line after every `Column` line it meets, so a `Column` line
   may be last only when a `Data` line ends the scan before it.
   */
  predicate HeaderOk(lines: seq<string>)
  {
    || |lines| == 0
    || !Contains(lines[|lines| - 1], ColumnMarker)
    || (FirstData(lines).Some? && FirstData(lines).value < |lines| - 1)
  }

  /** The index of the first column labelled `Source File` among `cols[j..]`, or the last index when none is. */
  function FirstSourceColumn(cols: seq<string>, j: nat): (r: nat)
    requires j < |cols|
    ensures j <= r < |cols|
    ensures Contains(cols[r], SourceFileLabel) || r == |cols| - 1
    ensures forall k :: j <= k < r ==> !Contains(cols[k], SourceFileLabel)
    decreases |cols| - j
  {
    if Contains(cols[j], SourceFileLabel) || j == |cols| - 1 then j
    else FirstSourceColumn(cols, j + 1)
  }

  /** The column index a header line selects: where the `for index, column in enumerate(...)` loop stops. */
  function SourceColumn(header: string): nat
  {
    FirstSourceColumn(Split(header, '\t'), 0)
  }

  /** The `state` variable of the scan. */
  datatype Phase = Init | InColumn | InData

  /** The variables `state`, `data` and `index` of the scan. */
  datatype Scan = Scan(phase: Phase, data: nat, index: nat)

  /** The line after the first `Data` line, or the end when there is none: where the scan stops. */
  function ScanLimit(lines: seq<string>): (r: nat)
    ensures r <= |lines|
  {
    match FirstData(lines)
    case Some(d) => d + 1
    case None => |lines|
  }

  /** The scan loop, from line `i` on, with `st` the state after lines `0..i`. */
  function ScanLines(lines: seq<string>, i: nat, st: Scan): (r: Scan)
    requires i <= |lines| && HeaderOk(lines)
    requires FirstData(lines).None? || i <= FirstData(lines).value
    requires st.phase != InData
    ensures FirstData(lines).Some? ==> r.phase == InData && r.data == FirstData(lines).value + 1
    ensures FirstData(lines).None? ==> r.phase != InData
    decreases |lines| - i
  {
    if i == |lines| then st
    else
      var st' := Advance(lines, i, st);
      if Contains(lines[i], DataMarker) then Scan(InData, i + 1, st'.index)
      else ScanLines(lines, i + 1, st')
  }

  /** The state after line `i`: a `Column` line selects a column from the line after it. */
  function Advance(lines: seq<string>, i: nat, st: Scan): (r: Scan)
    requires i < |lines| && HeaderOk(lines)
    requires FirstData(lines).None? || i <= FirstData(lines).value
    ensures r.phase == InColumn || r == st
  {
    if Contains(lines[i], ColumnMarker) then Scan(InColumn, st.data, SourceColumn(lines[i + 1])) else st
  }

  /** The scan as `parse_ale` starts it: from the first line, in state `Init`, with `data` and `index` at 0. */
  function ScanAle(lines: seq<string>): Scan
    requires HeaderOk(lines)
  {
    ScanLines(lines, 0, Scan(Init, 0, 0))
  }

  /** Every data row has the selected column (`parse_ale` raises `IndexError` otherwise). */
  predicate AleWellFormed(lines: seq<string>)
  {
    && HeaderOk(lines)
    && var st := ScanAle(lines);
       st.phase == InData ==> forall k :: st.data <= k < |lines| ==> st.index < |Split(lines[k], '\t')|
  }

  /** Field `index` of a tab-separated row, with surrounding newlines stripped. */
  function Field(row: string, index: nat): (r: string)
    requires index < |Split(row, '\t')|
    ensures '\t' !in r
    ensures |r| == 0 || (r[0] != '\n' && r[|r| - 1] != '\n')
  {
    var piece := Split(row, '\t')[index];
    StripField(piece);
    Strip(piece, Just('\n'))
  }

  lemma StripField(piece: string)
    requires '\t' !in piece
    ensures var r := Strip(piece, Just('\n'));
            '\t' !in r && (|r| == 0 || (r[0] != '\n' && r[|r| - 1] != '\n'))
  {
    StripKeepsAbsent(piece, '\t', Just('\n'));
  }

  /** `parse_ale` on the lines of a file: the selected column of every row after the first `Data` line. */
  function ParseAle(lines: seq<string>): (r: Result<seq<string>>)
    requires AleWellFormed(lines)
    ensures r.Err? ==> r.msg == NoItemsMessage
    ensures r.Ok? ==> |r.value| > 0
  {
    var st := ScanAle(lines);
    if st.phase != InData || st.data >= |lines| then Err(NoItemsMessage)
    else Ok(seq(|lines| - st.data, k requires 0 <= k < |lines| - st.data => Field(lines[st.data + k], st.index)))
  }

  /** `parse_ale` on a file: an unreadable file yields the I/O error text. */
  function ParseAleFile(read: Result<seq<string>>): (r: Result<seq<string>>)
    requires read.Ok? ==> AleWellFormed(read.value)
    ensures read.Err? ==> r == read
    ensures read.Ok? && r.Err? ==> r.msg == NoItemsMessage
  {
    match read
    case Err(e) => Err(e)
    case Ok(lines) => ParseAle(lines)
  }

  // The declarative reading of the scan.

  /** The last line before `n` that contains `Column`. */
  function LastColumnLine(lines: seq<string>, n: nat): (r: Option<nat>)
    requires n <= |lines|
    ensures r.Some? ==> r.value < n && Contains(lines[r.value], ColumnMarker)
    ensures r.Some? ==> forall j :: r.value < j < n ==> !Contains(lines[j], ColumnMarker)
    ensures r.None? ==> forall j :: 0 <= j < n ==> !Contains(lines[j], ColumnMarker)
  {
    if n == 0 then None
    else if Contains(lines[n - 1], ColumnMarker) then Some(n - 1)
    else LastColumnLine(lines, n - 1)
  }

  /**
   The column an ALE file selects: the one `SourceColumn` picks in the line after the
   last `Column` line the scan reaches, and 0 when it reaches none.
   */
  function AleColumn(lines: seq<string>): nat
    requires HeaderOk(lines)
  {
    match LastColumnLine(lines, ScanLimit(lines))
    case None => 0
    case Some(c) =>
      assert c + 1 < |lines| by {
        if FirstData(lines).None? {
          assert !Contains(lines[|lines| - 1], ColumnMarker) || c < |lines| - 1;
        }
      }
      SourceColumn(lines[c + 1])
  }

  /** The index the scan has picked after the lines before `n`. */
  predicate IndexAgrees(lines: seq<string>, n: nat, index: nat)
    requires n <= |lines|
  {
    match LastColumnLine(lines, n)
    case None => index == 0
    case Some(c) => c + 1 < |lines| && index == SourceColumn(lines[c + 1])
  }

  lemma {:induction false} ScanLinesIndex(lines: seq<string>, i: nat, st: Scan)
    requires i <= |lines| && HeaderOk(lines)
    requires FirstData(lines).None? || i <= FirstData(lines).value
    requires st.phase != InData
    requires IndexAgrees(lines, i, st.index)
    ensures IndexAgrees(lines, ScanLimit(lines), ScanLines(lines, i, st).index)
    decreases |lines| - i
  {
    if i < |lines| {
      if Contains(lines[i], DataMarker) {
        ScanIndexAtData(lines, i, st);
      } else {
        ScanIndexSkip(lines, i, st);
        ScanLinesIndex(lines, i + 1, Advance(lines, i, st));
      }
    }
  }

  /** One line of the scan keeps the picked index in step with `LastColumnLine`. */
  lemma AdvanceAgrees(lines: seq<string>, i: nat, st: Scan)
    requires i < |lines| && HeaderOk(lines)
    requires FirstData(lines).None? || i <= FirstData(lines).value
    requires IndexAgrees(lines, i, st.index)
    ensures IndexAgrees(lines, i + 1, Advance(lines, i, st).index)
  {
  }

  /** At the first `Data` line the scan stops, right where `ScanLimit` says. */
  lemma ScanIndexAtData(lines: seq<string>, i: nat, st: Scan)
    requires i < |lines| && HeaderOk(lines) && Contains(lines[i], DataMarker)
    requires FirstData(lines).None? || i <= FirstData(lines).value
    requires st.phase != InData
    requires IndexAgrees(lines, i, st.index)
    ensures IndexAgrees(lines, ScanLimit(lines), ScanLines(lines, i, st).index)
  {
    AdvanceAgrees(lines, i, st);
    assert ScanLimit(lines) == i + 1;
  }

  /** Past any other line the scan goes on from the advanced state. */
  lemma ScanIndexSkip(lines: seq<string>, i: nat, st: Scan)
    requires i < |lines| && HeaderOk(lines) && !Contains(lines[i], DataMarker)
    requires FirstData(lines).None? || i <= FirstData(lines).value
    requires st.phase != InData
    requires IndexAgrees(lines, i, st.index)
    ensures FirstData(lines).None? || i + 1 <= FirstData(lines).value
    ensures Advance(lines, i, st).phase != InData
    ensures IndexAgrees(lines, i + 1, Advance(lines, i, st).index)
    ensures ScanLines(lines, i, st) == ScanLines(lines, i + 1, Advance(lines, i, st))
  {
    AdvanceAgrees(lines, i, st);
  }

  /** The index the scan computes is the declarative `AleColumn`. */
  lemma ScanAleIndex(lines: seq<string>)
    requires HeaderOk(lines)
    ensures ScanAle(lines).index == AleColumn(lines)
  {
    ScanLinesIndex(lines, 0, Scan(Init, 0, 0));
  }

  /** Without a `Data` line there is no partial result, only the error. */
  lemma ParseAleNoData(lines: seq<string>)
    requires AleWellFormed(lines)
    requires forall j :: 0 <= j < |lines| ==> !Contains(lines[j], DataMarker)
    ensures ParseAle(lines) == Err(NoItemsMessage)
  {
    assert FirstData(lines).None?;
  }

  /** A `Data` line with nothing after it is the same error. */
  lemma ParseAleDataLast(lines: seq<string>)
    requires AleWellFormed(lines)
    requires FirstData(lines) == Some(|lines| - 1)
    ensures ParseAle(lines) == Err(NoItemsMessage)
  {
  }

  /**
   With `d` the first `Data` line and rows after it, the result has one item per
   following row, in row order, each the `AleColumn` field of its row.
   */
  lemma ParseAleRows(lines: seq<string>, d: nat)
    requires AleWellFormed(lines)
    requires FirstData(lines) == Some(d) && d + 1 < |lines|
    ensures ParseAle(lines).Ok?
    ensures |ParseAle(lines).value| == |lines| - (d + 1)
    ensures forall k :: 0 <= k < |lines| - (d + 1) ==>
              AleColumn(lines) < |Split(lines[d + 1 + k], '\t')|
              && ParseAle(lines).value[k] == Field(lines[d + 1 + k], AleColumn(lines))
  {
    ScanAleIndex(lines);
  }

  /** `parse_ale` succeeds exactly when some `Data` line has a row after it. */
  lemma ParseAleOkIff(lines: seq<string>)
    requires AleWellFormed(lines)
    ensures ParseAle(lines).Ok? <==> FirstData(lines).Some? && FirstData(lines).value + 1 < |lines|
  {
  }

  // ---------------------------------------------------------------------------
  // EDL: event lines start with a two-digit event number.
  // ---------------------------------------------------------------------------

  /** `line[:2]`: the first two characters, or the whole of a shorter line. */
  function Head2(line: string): (r: string)
    ensures |r| == if |line| < 2 then |line| else 2
    ensures forall i :: 0 <= i < |r| ==> r[i] == line[i]
  {
    if |line| < 2 then line else line[..2]
  }

  /** `str.isdigit()`: non-empty, and digits only. */
  predicate AllDigits(s: string)
  {
    |s| > 0 && forall i :: 0 <= i < |s| ==> IsDigit(s[i])
  }

  /** `line[:2].isdigit()`: the line starts with an event number. */
  predicate IsEventLine(line: string)
  {
    AllDigits(Head2(line))
  }

  /** Every event line has a second token (`parse_edl` raises `IndexError` otherwise). */
  predicate EdlWellFormed(lines: seq<string>)
  {
    forall i :: 0 <= i < |lines| && IsEventLine(lines[i]) ==> |SplitWs(lines[i])| >= 2
  }

  /** The second whitespace-separated token of a line. */
  function SecondToken(line: string): string
    requires |SplitWs(line)| >= 2
  {
    SplitWs(line)[1]
  }

  /** `parse_edl` on the lines of a file: the second token of every event line. */
  function ParseEdl(lines: seq<string>): (r: seq<string>)
    requires EdlWellFormed(lines)
    ensures |r| <= |lines|
    ensures forall k :: 0 <= k < |r| ==> |r[k]| > 0 && NoSpace(r[k])
    decreases |lines|
  {
    if |lines| == 0 then []
    else
      assert EdlWellFormed(lines[1..]) by {
        forall i | 0 <= i < |lines| - 1 && IsEventLine(lines[1..][i]) ensures |SplitWs(lines[1..][i])| >= 2 {
          assert lines[1..][i] == lines[i + 1];
        }
      }
      var rest := ParseEdl(lines[1..]);
      if IsEventLine(lines[0]) then [SecondToken(lines[0])] + rest else rest
  }

  /** `parse_edl` on a file: an unreadable file yields the I/O error text. */
  function ParseEdlFile(read: Result<seq<string>>): (r: Result<seq<string>>)
    requires read.Ok? ==> EdlWellFormed(read.value)
    ensures read.Err? <==> r.Err?
    ensures read.Err? ==> r == read
  {
    match read
    case Err(e) => Err(e)
    case Ok(lines) => Ok(ParseEdl(lines))
  }

  /** On a line `parse_edl` can read, being an event line means starting with two digits. */
  lemma EventLineTwoDigits(line: string)
    requires IsEventLine(line) ==> |SplitWs(line)| >= 2
    ensures IsEventLine(line) <==> |line| >= 2 && IsDigit(line[0]) && IsDigit(line[1])
  {
    if |line| < 2 {
      ShortLineNotEvent(line);
    } else {
      LongLineEvent(line);
    }
  }

  lemma ShortLineNotEvent(line: string)
    requires |line| < 2
    requires IsEventLine(line) ==> |SplitWs(line)| >= 2
    ensures !IsEventLine(line)
  {
    SplitWsLength(line);
  }

  lemma LongLineEvent(line: string)
    requires |line| >= 2
    ensures IsEventLine(line) <==> IsDigit(line[0]) && IsDigit(line[1])
  {
    var head := Head2(line);
    assert head[0] == line[0] && head[1] == line[1];
    if IsDigit(line[0]) && IsDigit(line[1]) {
      forall i | 0 <= i < |head| ensures IsDigit(head[i]) {
      }
    }
  }

  /** The indices of the event lines, in ascending order. */
  function EventIndices(lines: seq<string>): (r: seq<nat>)
    ensures forall k :: 0 <= k < |r| ==> r[k] < |lines| && IsEventLine(lines[r[k]])
    ensures forall k, m :: 0 <= k < m < |r| ==> r[k] < r[m]
    ensures forall i :: 0 <= i < |lines| && IsEventLine(lines[i]) ==> i in r
  {
    EventIndicesFrom(lines, 0)
  }

  /** The indices of the event lines from `i` on. */
  function EventIndicesFrom(lines: seq<string>, i: nat): (r: seq<nat>)
    requires i <= |lines|
    ensures forall k :: 0 <= k < |r| ==> i <= r[k] < |lines| && IsEventLine(lines[r[k]])
    ensures forall k, m :: 0 <= k < m < |r| ==> r[k] < r[m]
    ensures forall j :: i <= j < |lines| && IsEventLine(lines[j]) ==> j in r
    decreases |lines| - i
  {
    if i == |lines| then []
    else
      var rest := EventIndicesFrom(lines, i + 1);
      if IsEventLine(lines[i]) then [i] + rest else rest
  }

  lemma {:induction false} ParseEdlAppend(a: seq<string>, b: seq<string>)
    requires EdlWellFormed(a) && EdlWellFormed(b)
    ensures EdlWellFormed(a + b)
    ensures ParseEdl(a + b) == ParseEdl(a) + ParseEdl(b)
    decreases |a|
  {
    EdlWellFormedAppend(a, b);
    if |a| > 0 {
      EdlWellFormedSlice(a, 1, |a|);
      EdlWellFormedSlice(a + b, 1, |a + b|);
      ParseEdlAppend(a[1..], b);
      ConsTail(a, b);
      ParseEdlCons(a + b);
      ParseEdlCons(a);
      if IsEventLine(a[0]) {
        ConsAppend(ParseEdl(a + b), ParseEdl(a), [SecondToken(a[0])], ParseEdl(a[1..]), ParseEdl(b), ParseEdl(a[1..] + b));
      }
    } else {
      assert a == [];
      AppendEmpty(b);
    }
  }

  /** `parse_edl` looks at the first line, then at the rest. */
  lemma ParseEdlCons(lines: seq<string>)
    requires |lines| > 0 && EdlWellFormed(lines) && EdlWellFormed(lines[1..])
    ensures ParseEdl(lines) == if IsEventLine(lines[0]) then [SecondToken(lines[0])] + ParseEdl(lines[1..]) else ParseEdl(lines[1..])
  {
  }

  lemma EdlWellFormedAppend(a: seq<string>, b: seq<string>)
    requires EdlWellFormed(a) && EdlWellFormed(b)
    ensures EdlWellFormed(a + b)
  {
    forall i | 0 <= i < |a + b| && IsEventLine((a + b)[i]) ensures |SplitWs((a + b)[i])| >= 2 {
      if i < |a| { assert (a + b)[i] == a[i]; } else { assert (a + b)[i] == b[i - |a|]; }
    }
  }

  lemma EdlWellFormedSlice(lines: seq<string>, lo: nat, hi: nat)
    requires lo <= hi <= |lines| && EdlWellFormed(lines)
    ensures EdlWellFormed(lines[lo..hi])
  {
    forall i | 0 <= i < hi - lo && IsEventLine(lines[lo..hi][i]) ensures |SplitWs(lines[lo..hi][i])| >= 2 {
      assert lines[lo..hi][i] == lines[lo + i];
    }
  }

  /**
   `parse_edl` yields, in line order, the second token of each event line and
   nothing else: one item per event line.
   */
  lemma ParseEdlByEventLines(lines: seq<string>)
    requires EdlWellFormed(lines)
    ensures |ParseEdl(lines)| == |EventIndices(lines)|
    ensures forall k :: 0 <= k < |ParseEdl(lines)| ==>
              ParseEdl(lines)[k] == SecondToken(lines[EventIndices(lines)[k]])
  {
    ParseEdlByEventLinesFrom(lines, 0);
    WholeSlices(lines);
  }

  /** `out` holds, in order, the second token of each line `idx` points at. */
  predicate TokensAt(out: seq<string>, lines: seq<string>, idx: seq<nat>)
    requires EdlWellFormed(lines)
  {
    && |out| == |idx|
    && forall k :: 0 <= k < |idx| ==> idx[k] < |lines| && IsEventLine(lines[idx[k]]) && out[k] == SecondToken(lines[idx[k]])
  }

  lemma TokensAtCons(lines: seq<string>, i: nat, out: seq<string>, idx: seq<nat>)
    requires EdlWellFormed(lines) && i < |lines| && IsEventLine(lines[i])
    requires TokensAt(out, lines, idx)
    ensures TokensAt([SecondToken(lines[i])] + out, lines, [i] + idx)
  {
    ShiftCons(SecondToken(lines[i]), out, i, idx);
  }

  lemma {:induction false} ParseEdlByEventLinesFrom(lines: seq<string>, i: nat)
    requires EdlWellFormed(lines) && i <= |lines|
    ensures EdlWellFormed(lines[i..])
    ensures TokensAt(ParseEdl(lines[i..]), lines, EventIndicesFrom(lines, i))
    decreases |lines| - i
  {
    EdlWellFormedSlice(lines, i, |lines|);
    if i < |lines| {
      ParseEdlByEventLinesFrom(lines, i + 1);
      DropHead(lines, i);
      ParseEdlCons(lines[i..]);
      if IsEventLine(lines[i]) {
        TokensAtCons(lines, i, ParseEdl(lines[i + 1..]), EventIndicesFrom(lines, i + 1));
      }
    }
  }

  /** One more line at the end adds its item, if it is an event line, at the end. */
  lemma ParseEdlSnoc(lines: seq<string>)
    requires |lines| > 0 && EdlWellFormed(lines)
    ensures EdlWellFormed(lines[..|lines| - 1])
    ensures var n := |lines| - 1;
            ParseEdl(lines) == ParseEdl(lines[..n]) + (if IsEventLine(lines[n]) then [SecondToken(lines[n])] else [])
  {
    SnocParts(lines);
  }

  /** The facts `ParseEdlSnoc` combines: the two parts are well formed, and parsing splits over them. */
  lemma SnocParts(lines: seq<string>)
    requires |lines| > 0 && EdlWellFormed(lines)
    ensures var n := |lines| - 1;
            && EdlWellFormed(lines[..n]) && EdlWellFormed([lines[n]])
            && ParseEdl(lines) == ParseEdl(lines[..n]) + ParseEdl([lines[n]])
            && ParseEdl([lines[n]]) == if IsEventLine(lines[n]) then [SecondToken(lines[n])] else []
  {
    var n := |lines| - 1;
    var prefix := lines[..n];
    var last := [lines[n]];
    EdlWellFormedSlice(lines, 0, n);
    TakeSlice(lines, n);
    assert IsEventLine(lines[n]) ==> |SplitWs(lines[n])| >= 2;
    EdlWellFormedSingle(lines[n]);
    SnocSplit(lines);
    ParseEdlAppend(prefix, last);
    ParseEdlSingle(lines[n]);
  }

  lemma EdlWellFormedSingle(line: string)
    requires IsEventLine(line) ==> |SplitWs(line)| >= 2
    ensures EdlWellFormed([line])
  {
  }

  lemma ParseEdlSingle(line: string)
    requires IsEventLine(line) ==> |SplitWs(line)| >= 2
    ensures ParseEdl([line]) == if IsEventLine(line) then [SecondToken(line)] else []
  {
    assert [line][1..] == [];
    assert [line][0] == line;
  }
}

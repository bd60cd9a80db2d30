/**
 * The line classifier of `parse_md_to_docx` (scripts/utils/md_to_docx.py):
 * a small state machine that reads a Markdown file line by line and decides,
 * for each line, which Word block it becomes. The python-docx writer is
 * replaced by the sequence of blocks it would be asked to add; reading the
 * file is replaced by the list of its lines.
 */
module Markdown {
  import opened Text
  import opened Models

  /** A run of paragraph text, bold or not. */
  datatype Run = Run(text: string, bold: bool)

  /** The document operations the converter issues. */
  datatype Block =
    | Heading(level: int, text: string)
    | Bullet(text: string)
    | Numbered(text: string)
    | Code(text: string)
    | Table(header: seq<string>, rows: seq<seq<string>>)
    | Paragraph(runs: seq<Run>)

  /** The loop state: `code_mode`, `table_mode`, `table_lines`, and the
      blocks added so far. */
  datatype State = State(codeMode: bool, tableMode: bool, tableLines: seq<string>, out: seq<Block>)

  const Initial: State := State(false, false, [], [])

  const Fence: string := "```"

  // ---------------------------------------------------------------------
  // Bold runs: re.split(r'(\*\*.*?\*\*)', line)
  // ---------------------------------------------------------------------

  predicate NoBreak(s: string) {
    forall k :: 0 <= k < |s| ==> s[k] != '\n'
  }

  predicate StarsAt(s: string, k: int) {
    0 <= k && k + 2 <= |s| && s[k..k + 2] == "**"
  }

  /** The closing `**` of a lazy `.*?` that starts at `j`: the first `**` at
      or after `j`, provided no line break comes before it (`.` does not
      match a line break). */
  function CloseFrom(s: string, j: nat): (r: Option<nat>)
    requires j <= |s|
    ensures r.Some? ==> j <= r.value && StarsAt(s, r.value) && NoBreak(s[j..r.value])
    ensures r.Some? ==> forall k :: j <= k < r.value ==> !StarsAt(s, k)
    decreases |s| - j
  {
    if j + 2 > |s| then None
    else if s[j..j + 2] == "**" then Some(j)
    else if s[j] == '\n' then None
    else
      var r := CloseFrom(s, j + 1);
      assert r.Some? ==> s[j..r.value] == [s[j]] + s[j + 1..r.value];
      r
  }

  /** The leftmost match of `\*\*.*?\*\*` starting at or after `i`, as the
      pair (start, end). */
  function MatchFrom(s: string, i: nat): (r: Option<(nat, nat)>)
    requires i <= |s|
    ensures r.Some? ==> var (a, e) := r.value;
              i <= a && a + 4 <= e <= |s| && StarsAt(s, a) && StarsAt(s, e - 2)
    decreases |s| - i
  {
    if i + 2 > |s| then None
    else if s[i..i + 2] == "**" && CloseFrom(s, i + 2).Some? then
      Some((i, CloseFrom(s, i + 2).value + 2))
    else MatchFrom(s, i + 1)
  }

  /** `re.split` with the bold pattern as capturing group: the text before
      each match, the match itself, and finally the text after the last
      match. */
  function BoldSplit(s: string): (parts: seq<string>)
    ensures |parts| % 2 == 1
    decreases |s|
  {
    match MatchFrom(s, 0)
    case None => [s]
    case Some((a, e)) => [s[..a], s[a..e]] + BoldSplit(s[e..])
  }

  /** The parts at odd positions are the matches: at least four characters,
      opening and closing with `**`. */
  lemma {:induction false} BoldSplitMatches(s: string, k: nat)
    requires k < |BoldSplit(s)| && k % 2 == 1
    ensures |BoldSplit(s)[k]| >= 4
    ensures StartsWith(BoldSplit(s)[k], "**") && EndsWith(BoldSplit(s)[k], "**")
    decreases |s|
  {
    match MatchFrom(s, 0)
    case None =>
    case Some((a, e)) =>
      var rest := BoldSplit(s[e..]);
      if k == 1 {
        assert BoldSplit(s)[1] == s[a..e];
        assert s[a..e][..2] == s[a..a + 2];
        assert s[a..e][|s[a..e]| - 2..] == s[e - 2..e];
      } else {
        assert BoldSplit(s)[k] == rest[k - 2];
        BoldSplitMatches(s[e..], k - 2);
      }
  }

  /** Joining the split parts gives back the line. */
  lemma {:induction false} BoldSplitConcat(s: string)
    ensures Concat(BoldSplit(s)) == s
    decreases |s|
  {
    match MatchFrom(s, 0)
    case None =>
    case Some((a, e)) =>
      BoldSplitConcat(s[e..]);
      ConcatPair(s[..a], s[a..e], BoldSplit(s[e..]));
      assert s == s[..a] + s[a..e] + s[e..];
  }

  lemma ConcatPair(x: string, y: string, rest: seq<string>)
    ensures Concat([x, y] + rest) == x + y + Concat(rest)
  {
    ConcatAppend([x, y], rest);
    assert [x, y][1..] == [y];
    assert Concat([y]) == y + Concat([]);
  }

  /** A line without `**` is one part. */
  lemma {:induction false} NoStarsOnePart(s: string, i: nat)
    requires i <= |s|
    requires forall k :: i <= k ==> !StarsAt(s, k)
    ensures MatchFrom(s, i).None?
    decreases |s| - i
  {
    if i + 2 <= |s| {
      assert !StarsAt(s, i);
      NoStarsOnePart(s, i + 1);
    }
  }

  /** `part[2:-2]`. */
  function Unbold(part: string): string {
    Take(Drop(part, 2), -2)
  }

  /** A part that starts and ends with `**` is a bold run without its
      markers; any other part is a plain run. */
  function ToRun(part: string): (r: Run)
    ensures r.bold <==> StartsWith(part, "**") && EndsWith(part, "**")
    ensures !r.bold ==> r.text == part
  {
    if StartsWith(part, "**") && EndsWith(part, "**") then Run(Unbold(part), true)
    else Run(part, false)
  }

  function ToRuns(parts: seq<string>): (runs: seq<Run>)
    ensures |runs| == |parts|
    ensures forall k :: 0 <= k < |parts| ==> runs[k] == ToRun(parts[k])
  {
    seq(|parts|, k requires 0 <= k < |parts| => ToRun(parts[k]))
  }

  /** The runs of a plain paragraph line. */
  function LineRuns(line: string): seq<Run> {
    ToRuns(BoldSplit(line))
  }

  /** Every matched span becomes a bold run whose text, put back between
      `**` markers, is the span. */
  lemma BoldSpansRoundTrip(line: string, k: nat)
    requires k < |BoldSplit(line)| && k % 2 == 1
    ensures LineRuns(line)[k].bold
    ensures "**" + LineRuns(line)[k].text + "**" == BoldSplit(line)[k]
  {
    var part := BoldSplit(line)[k];
    BoldSplitMatches(line, k);
    assert Unbold(part) == part[2..|part| - 2];
    assert part == part[..2] + part[2..|part| - 2] + part[|part| - 2..];
  }

  /** A line without `**` is a single plain run holding the whole line. */
  lemma PlainLineRuns(line: string)
    requires forall k :: !StarsAt(line, k)
    ensures LineRuns(line) == [Run(line, false)]
  {
    NoStarsOnePart(line, 0);
    assert !StartsWith(line, "**") by {
      assert !StarsAt(line, 0);
    }
  }

  // ---------------------------------------------------------------------
  // Single-line blocks
  // ---------------------------------------------------------------------

  /** The number of leading ASCII digits. */
  function DigitPrefix(s: string): (n: nat)
    ensures n <= |s|
    ensures forall k :: 0 <= k < n ==> IsAsciiDigit(s[k])
    ensures n < |s| ==> !IsAsciiDigit(s[n])
  {
    if |s| > 0 && IsAsciiDigit(s[0]) then 1 + DigitPrefix(s[1..]) else 0
  }

  /** `re.match(r'^\d+\. ', line)`. */
  predicate IsNumbered(line: string) {
    var d := DigitPrefix(line);
    d > 0 && StartsWith(line[d..], ". ")
  }

  /** `s.split(c, 1)[1]`, and the empty text when `c` does not occur. */
  function AfterFirst(s: string, c: char): (r: string)
    ensures |r| <= |s|
  {
    if |s| == 0 then ""
    else if s[0] == c then s[1..]
    else AfterFirst(s[1..], c)
  }

  /** The text after the first occurrence of `c`, when `c` first occurs at
      `d`. */
  lemma {:induction false} AfterFirstAt(s: string, c: char, d: nat)
    requires d < |s| && s[d] == c
    requires forall k :: 0 <= k < d ==> s[k] != c
    ensures AfterFirst(s, c) == s[d + 1..]
    decreases d
  {
    if d > 0 {
      AfterFirstAt(s[1..], c, d - 1);
    }
  }

  /** The block a right-stripped line outside code mode and tables becomes:
      none for an empty line. */
  function LineBlocks(line: string): (r: seq<Block>)
    ensures |r| == if line == "" then 0 else 1
    ensures forall b :: b in r ==> !b.Code? && !b.Table?
    ensures |r| == 1 && r[0].Heading? ==>
              1 <= r[0].level <= 4 && HashPrefix(line, r[0].level) && r[0].text == line[r[0].level + 1..]
    ensures StartsWith(line, "* ") || StartsWith(line, "- ") ==> r == [Bullet(line[2..])]
    ensures |r| == 1 && r[0].Bullet? ==> StartsWith(line, "* ") || StartsWith(line, "- ")
    ensures |r| == 1 && r[0].Numbered? ==> IsNumbered(line)
    ensures |r| == 1 && r[0].Paragraph? ==>
              && r[0].runs == LineRuns(line)
              && !IsNumbered(line) && !StartsWith(line, "* ") && !StartsWith(line, "- ")
  {
    if StartsWith(line, "# ") then [Heading(1, line[2..])]
    else if StartsWith(line, "## ") then [Heading(2, line[3..])]
    else if StartsWith(line, "### ") then [Heading(3, line[4..])]
    else if StartsWith(line, "#### ") then [Heading(4, line[5..])]
    else if StartsWith(line, "* ") || StartsWith(line, "- ") then [Bullet(line[2..])]
    else if IsNumbered(line) then [Numbered(Strip(AfterFirst(line, '.')))]
    else if line != "" then [Paragraph(LineRuns(line))]
    else []
  }

  /** `line` opens with exactly `n` hashes followed by a space. */
  predicate HashPrefix(line: string, n: nat) {
    n < |line| && line[n] == ' ' && forall k :: 0 <= k < n ==> line[k] == '#'
  }

  /** `n` hashes and a space give a heading of level `n` holding the rest of
      the line, for `n` from 1 to 4. */
  lemma HeadingLevel(n: nat, title: string)
    requires 1 <= n <= 4
    ensures LineBlocks(Repeat('#', n) + " " + title) == [Heading(n, title)]
  {
    var line := Repeat('#', n) + " " + title;
    assert line[n] == ' ';
    assert line[n + 1..] == title;
    assert HashPrefix(line, n);
    if n == 1 {
      HeadingOne(line);
    } else if n == 2 {
      HeadingTwo(line);
    } else if n == 3 {
      HeadingThree(line);
    } else {
      HeadingFour(line);
    }
  }

  lemma HeadingOne(line: string)
    requires HashPrefix(line, 1)
    ensures LineBlocks(line) == [Heading(1, line[2..])]
  {
    assert line[..2] == "# ";
  }

  lemma HeadingTwo(line: string)
    requires HashPrefix(line, 2)
    ensures LineBlocks(line) == [Heading(2, line[3..])]
  {
    assert line[1] == '#';
    assert line[..3] == "## ";
  }

  lemma HeadingThree(line: string)
    requires HashPrefix(line, 3)
    ensures LineBlocks(line) == [Heading(3, line[4..])]
  {
    assert line[1] == '#' && line[2] == '#';
    assert line[..4] == "### ";
  }

  lemma HeadingFour(line: string)
    requires HashPrefix(line, 4)
    ensures LineBlocks(line) == [Heading(4, line[5..])]
  {
    assert line[1] == '#' && line[2] == '#' && line[3] == '#';
    assert line[..5] == "#### ";
  }

  /** A numbered item keeps the trimmed text after its `"<digits>. "`
      prefix. */
  lemma NumberedText(line: string)
    requires IsNumbered(line)
    ensures LineBlocks(line) == [Numbered(Strip(line[DigitPrefix(line) + 1..]))]
  {
    NumberedIsNotOther(line);
    NumberedAfterDot(line);
  }

  /** The first `.` of a numbered line is the one after its digits. */
  lemma NumberedAfterDot(line: string)
    requires IsNumbered(line)
    ensures AfterFirst(line, '.') == line[DigitPrefix(line) + 1..]
  {
    var d := DigitPrefix(line);
    assert line[d] == line[d..][0] == '.';
    AfterFirstAt(line, '.', d);
  }

  /** A numbered line never starts like a heading or a bullet. */
  lemma NumberedIsNotOther(line: string)
    requires IsNumbered(line)
    ensures !StartsWith(line, "# ") && !StartsWith(line, "## ") && !StartsWith(line, "### ")
    ensures !StartsWith(line, "#### ") && !StartsWith(line, "* ") && !StartsWith(line, "- ")
  {
    assert IsAsciiDigit(line[0]);
  }

  // ---------------------------------------------------------------------
  // Tables
  // ---------------------------------------------------------------------

  /** `line.strip('|').split('|')`. */
  function Cells(line: string): (r: seq<string>)
    ensures |r| >= 1
    ensures forall k, i :: 0 <= k < |r| && 0 <= i < |r[k]| ==> r[k][i] != '|'
  {
    Split(StripChar(line, '|'), '|')
  }

  /** One body row: cell `i` of the new table row is the stripped `i`-th
      value of the line, or stays empty when the line is short; values
      beyond the header count are ignored. */
  function Row(data: seq<string>, width: nat): (r: seq<string>)
    ensures |r| == width
  {
    seq(width, i requires 0 <= i < width => if i < |data| then Strip(data[i]) else "")
  }

  /** The table built from the buffered lines: header cells from the first
      line, body rows from the third line on (the second is the separator). */
  function ParseTable(lines: seq<string>): (b: Block)
    requires |lines| > 2
    ensures b.Table?
    ensures |b.header| == |Cells(lines[0])|
    ensures |b.rows| == |lines| - 2
    ensures forall k :: 0 <= k < |b.rows| ==> |b.rows[k]| == |b.header|
  {
    var header := Cells(lines[0]);
    var width := |header|;
    Table(seq(width, i requires 0 <= i < width => Strip(header[i])),
          seq(|lines| - 2, k requires 0 <= k < |lines| - 2 => Row(Cells(lines[k + 2]), width)))
  }

  /** Stripping a text without `|` leaves no `|`. */
  lemma StripNoBar(s: string)
    requires !HasChar(s, '|')
    ensures !HasChar(Strip(s), '|')
  {
    var r := Strip(s);
    var a := StripFrom(s);
    forall c | 0 <= c < |r|
      ensures r[c] != '|'
    {
      assert r[c] == s[a + c];
    }
  }

  /** A cell written from a `'|'`-split value contains no `|` and has no
      whitespace at either end. */
  predicate CleanCell(cell: string) {
    !HasChar(cell, '|') && (|cell| > 0 ==> !IsSpace(cell[0]) && !IsSpace(cell[|cell| - 1]))
  }

  lemma StrippedCellClean(cells: seq<string>, i: nat)
    requires i < |cells|
    requires forall k, c :: 0 <= k < |cells| && 0 <= c < |cells[k]| ==> cells[k][c] != '|'
    ensures CleanCell(Strip(cells[i]))
  {
    StripNoBar(cells[i]);
  }

  /** Every header cell is clean. */
  lemma HeaderCellsClean(lines: seq<string>, i: nat)
    requires |lines| > 2
    requires i < |ParseTable(lines).header|
    ensures CleanCell(ParseTable(lines).header[i])
  {
    StrippedCellClean(Cells(lines[0]), i);
  }

  /** Every body cell is clean. */
  lemma RowCellsClean(lines: seq<string>, k: nat, i: nat)
    requires |lines| > 2
    requires k < |lines| - 2 && i < |ParseTable(lines).header|
    ensures CleanCell(ParseTable(lines).rows[k][i])
  {
    var data := Cells(lines[k + 2]);
    assert ParseTable(lines).rows[k] == Row(data, |Cells(lines[0])|);
    RowCellClean(data, |Cells(lines[0])|, i);
  }

  lemma RowCellClean(data: seq<string>, width: nat, i: nat)
    requires i < width
    requires forall k, c :: 0 <= k < |data| && 0 <= c < |data[k]| ==> data[k][c] != '|'
    ensures CleanCell(Row(data, width)[i])
  {
    if i < |data| {
      StrippedCellClean(data, i);
    }
  }

  /** The separator line has no influence on the table. */
  lemma SeparatorIgnored(lines: seq<string>, sep: string)
    requires |lines| > 2
    ensures ParseTable(lines[1 := sep]) == ParseTable(lines)
  {
    var other := lines[1 := sep];
    assert other[0] == lines[0];
    assert forall k :: 2 <= k < |lines| ==> other[k] == lines[k];
  }

  /** What leaving table mode emits: the table when more than two lines
      were buffered, nothing otherwise. */
  function FlushTable(lines: seq<string>): (r: seq<Block>)
    ensures |r| <= 1
    ensures r != [] <==> |lines| > 2
  {
    if |lines| > 2 then [ParseTable(lines)] else []
  }

  // ---------------------------------------------------------------------
  // The loop
  // ---------------------------------------------------------------------

  /** Every line right-stripped, in order: what the buffer holds after a run
      of table lines. */
  function RStripEach(lines: seq<string>): (r: seq<string>)
    ensures |r| == |lines|
    ensures forall k :: 0 <= k < |lines| ==> r[k] == RStrip(lines[k])
  {
    if |lines| == 0 then [] else [RStrip(lines[0])] + RStripEach(lines[1..])
  }

  /** One iteration of the loop over the lines. */
  function Step(st: State, raw: string): (r: State)
    ensures st.out <= r.out
    ensures |r.out| <= |st.out| + 2
    ensures r.codeMode == (st.codeMode != StartsWith(RStrip(raw), Fence))
    ensures r.tableLines == st.tableLines || r.tableLines == [] || r.tableLines == st.tableLines + [RStrip(raw)]
  {
    var line := RStrip(raw);
    if StartsWith(line, Fence) then
      st.(codeMode := !st.codeMode)
    else if st.codeMode then
      st.(out := st.out + [Code(line)])
    else if StartsWith(line, "|") then
      st.(tableMode := true, tableLines := st.tableLines + [line])
    else
      var flushed :=
        if st.tableMode then State(st.codeMode, false, [], st.out + FlushTable(st.tableLines))
        else st;
      if st.tableMode && line == "" then flushed
      else flushed.(out := flushed.out + LineBlocks(line))
  }

  /** The state after the loop has consumed `lines`. */
  function RunLines(st: State, lines: seq<string>): (r: State)
    ensures st.out <= r.out
    decreases |lines|
  {
    if |lines| == 0 then st else RunLines(Step(st, lines[0]), lines[1..])
  }

  /** The blocks `parse_md_to_docx` adds for the lines of a file. */
  function Convert(lines: seq<string>): seq<Block> {
    RunLines(Initial, lines).out
  }

  /** `table_mode` is set exactly while lines are buffered, and every
      buffered line starts with `|`. */
  predicate Consistent(st: State) {
    && (st.tableMode <==> |st.tableLines| > 0)
    && forall k :: 0 <= k < |st.tableLines| ==> StartsWith(st.tableLines[k], "|")
  }

  lemma StepConsistent(st: State, raw: string)
    requires Consistent(st)
    ensures Consistent(Step(st, raw))
  {
  }

  lemma {:induction false} RunConsistent(st: State, lines: seq<string>)
    requires Consistent(st)
    ensures Consistent(RunLines(st, lines))
    decreases |lines|
  {
    if |lines| > 0 {
      StepConsistent(st, lines[0]);
      RunConsistent(Step(st, lines[0]), lines[1..]);
    }
  }

  /** A fence line toggles code mode and emits nothing, even while a table
      is being buffered. */
  lemma FenceEmitsNothing(st: State, raw: string)
    requires StartsWith(raw, Fence)
    ensures Step(st, raw) == st.(codeMode := !st.codeMode)
  {
    RStripKeepsPrefix(raw, Fence);
  }

  /** An empty or blank line outside code mode and tables changes nothing. */
  lemma BlankLineEmitsNothing(st: State, raw: string)
    requires AllSpace(raw) && !st.codeMode && !st.tableMode
    ensures Step(st, raw) == st
  {
    RStripOfBlank(raw);
  }

  /** Right-stripping keeps every character up to the last non-space. */
  lemma {:induction false} RStripKeepsNonSpace(s: string, j: nat)
    requires j < |s| && !IsSpace(s[j])
    ensures |RStrip(s)| > j
    decreases |s|
  {
    if IsSpace(s[|s| - 1]) {
      assert j < |s| - 1;
      RStripKeepsNonSpace(s[..|s| - 1], j);
    }
  }

  /** Right-stripping keeps a prefix that does not end in whitespace. */
  lemma RStripKeepsPrefix(s: string, p: string)
    requires StartsWith(s, p) && |p| > 0 && !IsSpace(p[|p| - 1])
    ensures StartsWith(RStrip(s), p)
  {
    assert s[|p| - 1] == p[|p| - 1];
    RStripKeepsNonSpace(s, |p| - 1);
    assert RStrip(s)[..|p|] == s[..|p|];
  }

  lemma RStripOfBlank(s: string)
    requires AllSpace(s)
    ensures RStrip(s) == ""
  {
  }

  /** Lines between two fences come out verbatim, one code block each,
      right-stripped. */
  lemma {:induction false} CodeLinesVerbatim(st: State, body: seq<string>)
    requires st.codeMode
    requires forall k :: 0 <= k < |body| ==> !StartsWith(RStrip(body[k]), Fence)
    ensures RunLines(st, body) ==
              st.(out := st.out + seq(|body|, k requires 0 <= k < |body| => Code(RStrip(body[k]))))
    decreases |body|
  {
    if |body| > 0 {
      var next := Step(st, body[0]);
      assert next == st.(out := st.out + [Code(RStrip(body[0]))]);
      CodeLinesVerbatim(next, body[1..]);
      CodeBlocksCons(body);
    }
  }

  lemma CodeBlocksCons(body: seq<string>)
    requires |body| > 0
    ensures [Code(RStrip(body[0]))]
              + seq(|body| - 1, k requires 0 <= k < |body| - 1 => Code(RStrip(body[1..][k])))
            == seq(|body|, k requires 0 <= k < |body| => Code(RStrip(body[k])))
  {
  }

  /** `|` lines outside code mode are only buffered: they add nothing to the
      output and extend the buffer. */
  lemma TableLinesBuffered(st: State, lines: seq<string>)
    requires !st.codeMode
    requires forall k :: 0 <= k < |lines| ==> StartsWith(lines[k], "|")
    ensures RunLines(st, lines).out == st.out
    ensures RunLines(st, lines).tableLines == st.tableLines + RStripEach(lines)
    ensures !RunLines(st, lines).codeMode
    ensures |lines| > 0 ==> RunLines(st, lines).tableMode
  {
    BufferedRun(st, lines);
  }

  /** The state after a run of table lines. */
  function Buffered(st: State, lines: seq<string>): State {
    if |lines| == 0 then st
    else st.(tableMode := true, tableLines := st.tableLines + RStripEach(lines))
  }

  lemma {:induction false} BufferedRun(st: State, lines: seq<string>)
    requires !st.codeMode
    requires forall k :: 0 <= k < |lines| ==> StartsWith(lines[k], "|")
    ensures RunLines(st, lines) == Buffered(st, lines)
    decreases |lines|
  {
    if |lines| > 0 {
      StepBuffers(st, lines[0]);
      var next := Step(st, lines[0]);
      BufferedRun(next, lines[1..]);
      BufferedCons(st, lines);
    }
  }

  lemma BufferedCons(st: State, lines: seq<string>)
    requires |lines| > 0
    ensures Buffered(st.(tableMode := true, tableLines := st.tableLines + [RStrip(lines[0])]), lines[1..])
            == Buffered(st, lines)
  {
    var x, t := RStrip(lines[0]), RStripEach(lines[1..]);
    assert RStripEach(lines) == [x] + t;
    assert st.tableLines + [x] + t == st.tableLines + ([x] + t);
    if |lines| == 1 {
      assert [x] + t == [x];
    }
  }

  /** A `|` line outside code mode goes into the buffer, right-stripped. */
  lemma StepBuffers(st: State, raw: string)
    requires !st.codeMode && StartsWith(raw, "|")
    ensures Step(st, raw) == st.(tableMode := true, tableLines := st.tableLines + [RStrip(raw)])
  {
    RStripKeepsPrefix(raw, "|");
    assert !StartsWith(RStrip(raw), Fence);
  }

  /** A table at the very end of the input is never emitted: whatever comes
      before it (outside a code block), appending table lines adds nothing
      to the output, however long the table. */
  lemma TrailingTableDropped(prefix: seq<string>, table: seq<string>)
    requires !RunLines(Initial, prefix).codeMode
    requires forall k :: 0 <= k < |table| ==> StartsWith(table[k], "|")
    ensures Convert(prefix + table) == Convert(prefix)
  {
    RunAppend(Initial, prefix, table);
    TableLinesBuffered(RunLines(Initial, prefix), table);
  }

  /** A table followed by a plain line is emitted when it has more than two
      lines, and dropped otherwise. */
  lemma TableClosedByLine(lines: seq<string>, after: string)
    requires forall k :: 0 <= k < |lines| ==> StartsWith(lines[k], "|")
    requires |lines| > 0
    requires !StartsWith(RStrip(after), "|") && !StartsWith(RStrip(after), Fence)
    ensures Convert(lines + [after]) ==
              FlushTable(RStripEach(lines))
              + LineBlocks(RStrip(after))
  {
    TableLinesBuffered(Initial, lines);
    ConvertLastLine(lines, after);
    StepAfterBuffered(RunLines(Initial, lines), after, RStripEach(lines));
  }

  /** The step that ends a table buffered from an empty output. */
  lemma StepAfterBuffered(st: State, raw: string, buffered: seq<string>)
    requires st.out == [] && st.tableLines == buffered && st.tableMode && !st.codeMode
    requires !StartsWith(RStrip(raw), "|") && !StartsWith(RStrip(raw), Fence)
    ensures Step(st, raw).out == FlushTable(buffered) + LineBlocks(RStrip(raw))
  {
    StepClosesTable(st, raw);
    assert [] + FlushTable(buffered) == FlushTable(buffered);
  }

  /** The output for `lines` followed by one more line is what that line's
      step makes of the state after `lines`. */
  lemma ConvertLastLine(lines: seq<string>, after: string)
    ensures Convert(lines + [after]) == Step(RunLines(Initial, lines), after).out
  {
    RunAppend(Initial, lines, [after]);
    RunOne(RunLines(Initial, lines), after);
  }

  lemma RunOne(st: State, raw: string)
    ensures RunLines(st, [raw]) == Step(st, raw)
  {
    assert [raw][1..] == [];
  }

  /** A line that is neither a fence nor a table line ends a buffered table:
      the table (if long enough) is emitted, then the line's own block. */
  lemma StepClosesTable(st: State, raw: string)
    requires st.tableMode && !st.codeMode
    requires !StartsWith(RStrip(raw), "|") && !StartsWith(RStrip(raw), Fence)
    ensures Step(st, raw).out == st.out + FlushTable(st.tableLines) + LineBlocks(RStrip(raw))
    ensures !Step(st, raw).tableMode && Step(st, raw).tableLines == []
  {
    if RStrip(raw) == "" {
      assert LineBlocks(RStrip(raw)) == [];
    }
  }

  lemma {:induction false} RunAppend(st: State, a: seq<string>, b: seq<string>)
    ensures RunLines(st, a + b) == RunLines(RunLines(st, a), b)
    decreases |a|
  {
    if |a| > 0 {
      assert (a + b)[0] == a[0];
      assert (a + b)[1..] == a[1..] + b;
      RunAppend(Step(st, a[0]), a[1..], b);
    } else {
      assert a + b == b;
    }
  }

  /** The loop written out, with the functional model as its reference. */
  method ConvertLines(lines: seq<string>) returns (blocks: seq<Block>)
    ensures blocks == Convert(lines)
  {
    var st := Initial;
    var i := 0;
    while i < |lines|
      invariant 0 <= i <= |lines|
      invariant RunLines(st, lines[i..]) == RunLines(Initial, lines)
    {
      assert lines[i..] == [lines[i]] + lines[i + 1..];
      st := Step(st, lines[i]);
      i := i + 1;
    }
    blocks := st.out;
  }

  // ---------------------------------------------------------------------
  // Flushing at end of input
  // ---------------------------------------------------------------------

  /** Leaving the loop with a table still buffered, emitting it as a
      following non-table line would. */
  function Finish(st: State): (r: State)
    ensures !r.tableMode
    ensures st.out <= r.out
  {
    if st.tableMode then State(st.codeMode, false, [], st.out + FlushTable(st.tableLines))
    else st
  }

  /** The converter with the end of input treated as the end of a table. */
  function ConvertFlushed(lines: seq<string>): seq<Block> {
    Finish(RunLines(Initial, lines)).out
  }

  /** With the end-of-input flush, a table that ends the file is emitted
      after the blocks of what precedes it, as it would be before a blank
      line. */
  lemma TrailingTableFlushed(prefix: seq<string>, table: seq<string>)
    requires !RunLines(Initial, prefix).codeMode && !RunLines(Initial, prefix).tableMode
    requires forall k :: 0 <= k < |table| ==> StartsWith(table[k], "|")
    requires |table| > 2
    ensures ConvertFlushed(prefix + table) == Convert(prefix) + [ParseTable(RStripEach(table))]
    ensures ConvertFlushed(prefix + table) == Convert(prefix + table + [""])
  {
    var st := RunLines(Initial, prefix);
    RunConsistent(Initial, prefix);
    RunAppend(Initial, prefix, table);
    BufferedRun(st, table);
    var buffered := Buffered(st, table);
    assert buffered.tableLines == RStripEach(table);
    assert Finish(buffered).out == st.out + [ParseTable(RStripEach(table))];
    FlushBlank(buffered);
    ConvertLastLine(prefix + table, "");
  }

  /** A blank line after a buffered table emits exactly what the end-of-input
      flush emits. */
  lemma FlushBlank(st: State)
    requires st.tableMode && !st.codeMode
    ensures Step(st, "").out == Finish(st).out
  {
    assert RStrip("") == "";
    assert !StartsWith("", Fence) && !StartsWith("", "|");
  }

  /** The end-of-input flush changes nothing for an input that does not end
      inside a table. */
  lemma FlushedAgreesWithoutTrailingTable(lines: seq<string>)
    requires !RunLines(Initial, lines).tableMode
    ensures ConvertFlushed(lines) == Convert(lines)
  {
  }
}

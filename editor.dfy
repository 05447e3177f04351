/**
  The deterministic helpers of the editor window (MainWindow.xaml.cs):

  - AddHeadingIds, which gives every rendered heading tag without an `id=`
    attribute the id `heading-<n>`, `n` counting every heading tag seen so far;
  - GenerateAndInsertTable, which writes the text of an empty Markdown table,
    and the row/column bounds check of the "insert table" dialog;
  - InsertMarkdownSyntax, which wraps the selection of the editor text box in
    a prefix and a suffix and selects the wrapped text;
  - the view flags: ToggleEditor, TogglePreview, the three-state ToggleView
    cycle and the repair in UpdateViewVisibility that never leaves both the
    editor and the preview hidden.

  The regular expression that cuts the HTML into heading tags and other text
  is not modelled: AddHeadingIds works on the HTML already cut into segments.
  The WPF text box is modelled by its text and its selection.
*/
module Editor {
  import opened Text
  import opened Outline

  // ---------------------------------------------------------------------
  // AddHeadingIds
  // ---------------------------------------------------------------------

  /**
    A piece of rendered HTML: an opening heading tag `<hN attributes>` as the
    pattern `<h([1-6])(\s+[^>]*)?>` matches it, or any other text.
  */
  datatype Segment = Other(content: string) | HeadingTag(digit: HeadingDigit, attributes: string)

  /** What the optional group `(\s+[^>]*)` can capture: nothing, or whitespace first and no `>`. */
  predicate TagAttributes(a: string)
  {
    a == [] || (IsWhiteSpace(a[0]) && forall i :: 0 <= i < |a| ==> a[i] != '>')
  }

  predicate WellFormed(html: seq<Segment>)
  {
    forall i :: 0 <= i < |html| && html[i].HeadingTag? ==> TagAttributes(html[i].attributes)
  }

  /** The number of heading tags among `segs`. */
  function TagCount(segs: seq<Segment>): nat
  {
    if segs == [] then 0
    else TagCount(segs[..|segs| - 1]) + (if segs[|segs| - 1].HeadingTag? then 1 else 0)
  }

  /** The attribute text inserted in front of the existing attributes. */
  function IdAttribute(n: nat): string
  {
    " id=\"" + SynthesizedId(n) + "\""
  }

  /** The replacement of one segment when `n` heading tags come before it. */
  function Rewrite(seg: Segment, n: nat): Segment
  {
    match seg
    case Other(_) => seg
    case HeadingTag(d, a) => if Contains(a, "id=") then seg else HeadingTag(d, IdAttribute(n) + a)
  }

  /** The HTML after AddHeadingIds: each segment rewritten with the count of the tags before it. */
  function WithHeadingIds(html: seq<Segment>): (r: seq<Segment>)
    ensures |r| == |html|
  {
    seq(|html|, i requires 0 <= i < |html| => Rewrite(html[i], TagCount(html[..i])))
  }

  /**
    The match evaluator: takes the next counter value for every tag, and
    inserts the id unless the attributes already mention `id=`.
  */
  method Evaluate(seg: Segment, headingCount: nat) returns (out: Segment, next: nat)
    ensures out == Rewrite(seg, headingCount)
    ensures next == headingCount + (if seg.HeadingTag? then 1 else 0)
  {
    match seg {
      case Other(_) =>
        out, next := seg, headingCount;
      case HeadingTag(d, a) =>
        var id := SynthesizedId(headingCount);
        next := headingCount + 1;
        if Contains(a, "id=") {
          out := seg;
        } else {
          out := HeadingTag(d, " id=\"" + id + "\"" + a);
        }
    }
  }

  /** Regex.Replace with the counting match evaluator, one segment at a time. */
  method AddHeadingIds(html: seq<Segment>) returns (result: seq<Segment>)
    ensures result == WithHeadingIds(html)
  {
    var headingCount := 0;
    result := [];
    for i := 0 to |html|
      invariant |result| == i && headingCount == TagCount(html[..i])
      invariant forall k :: 0 <= k < i ==> result[k] == Rewrite(html[k], TagCount(html[..k]))
    {
      assert html[..i + 1][..i] == html[..i];
      var out;
      out, headingCount := Evaluate(html[i], headingCount);
      result := result + [out];
    }
  }

  lemma IdAttributeHasId(n: nat, a: string)
    ensures Contains(IdAttribute(n) + a, "id=")
  {
    var x := IdAttribute(n) + a;
    assert x[0] == ' ' && x[1] == 'i' && x[2] == 'd' && x[3] == '=';
    assert x[1..][..3] == "id=";
  }

  /**
    AddHeadingIds leaves other text alone, keeps each tag's level and its
    original attributes (at the end), leaves a tag that already mentions
    `id=` unchanged, and gives any other tag the id `heading-n` where `n` is
    the number of heading tags before it, the unchanged ones included.
  */
  lemma WithHeadingIdsKeeps(html: seq<Segment>, i: nat)
    requires i < |html|
    ensures var r := WithHeadingIds(html)[i];
            r.Other? <==> html[i].Other?
    ensures html[i].Other? ==> WithHeadingIds(html)[i] == html[i]
    ensures html[i].HeadingTag? ==>
              var r := WithHeadingIds(html)[i];
              r.digit == html[i].digit &&
              |html[i].attributes| <= |r.attributes| &&
              r.attributes[|r.attributes| - |html[i].attributes|..] == html[i].attributes
    ensures html[i].HeadingTag? && Contains(html[i].attributes, "id=") ==> WithHeadingIds(html)[i] == html[i]
    ensures html[i].HeadingTag? && !Contains(html[i].attributes, "id=") ==>
              WithHeadingIds(html)[i].attributes == " id=\"" + HeadingIdPrefix + NatToString(TagCount(html[..i])) + "\"" + html[i].attributes
  {
  }

  /** Afterwards every heading tag carries an `id=` attribute. */
  lemma EveryHeadingHasId(html: seq<Segment>)
    ensures forall i :: 0 <= i < |html| && WithHeadingIds(html)[i].HeadingTag? ==>
              Contains(WithHeadingIds(html)[i].attributes, "id=")
  {
    var r := WithHeadingIds(html);
    forall i | 0 <= i < |html| && r[i].HeadingTag?
      ensures Contains(r[i].attributes, "id=")
    {
      if !Contains(html[i].attributes, "id=") {
        IdAttributeHasId(TagCount(html[..i]), html[i].attributes);
      }
    }
  }

  /** Running AddHeadingIds a second time changes nothing. */
  lemma WithHeadingIdsIdempotent(html: seq<Segment>)
    ensures WithHeadingIds(WithHeadingIds(html)) == WithHeadingIds(html)
  {
    var r := WithHeadingIds(html);
    EveryHeadingHasId(html);
    assert forall i :: 0 <= i < |r| ==> WithHeadingIds(r)[i] == r[i];
  }

  /** The rewritten tags are still tags the pattern matches. */
  lemma WithHeadingIdsWellFormed(html: seq<Segment>)
    requires WellFormed(html)
    ensures WellFormed(WithHeadingIds(html))
  {
    var r := WithHeadingIds(html);
    forall i | 0 <= i < |r| && r[i].HeadingTag?
      ensures TagAttributes(r[i].attributes)
    {
      var a := html[i].attributes;
      if !Contains(a, "id=") {
        var s := SynthesizedId(TagCount(html[..i]));
        assert forall k :: 0 <= k < |s| ==> s[k] != '>' by {
          assert forall k :: 0 <= k < |HeadingIdPrefix| ==> s[k] == HeadingIdPrefix[k];
          assert forall k :: |HeadingIdPrefix| <= k < |s| ==> s[k] == NatToString(TagCount(html[..i]))[k - |HeadingIdPrefix|];
        }
        var x := IdAttribute(TagCount(html[..i]));
        assert forall k :: 0 <= k < |x| ==> x[k] != '>' by {
          assert forall k :: 5 <= k < |x| - 1 ==> x[k] == s[k - 5];
        }
        assert r[i].attributes == x + a;
      }
    }
  }

  /** A heading tag earlier in the HTML has fewer heading tags before it. */
  lemma {:induction false} TagCountGrows(segs: seq<Segment>, a: nat, b: nat)
    requires a < b <= |segs| && segs[a].HeadingTag?
    ensures TagCount(segs[..a]) < TagCount(segs[..b])
    decreases b
  {
    assert segs[..b][..b - 1] == segs[..b - 1];
    if b - 1 > a {
      TagCountGrows(segs, a, b - 1);
    }
  }

  /** Two tags that AddHeadingIds rewrites receive different ids. */
  lemma InsertedIdsDistinct(html: seq<Segment>, i: nat, j: nat)
    requires i < j < |html| && html[i].HeadingTag? && html[j].HeadingTag?
    ensures SynthesizedId(TagCount(html[..i])) != SynthesizedId(TagCount(html[..j]))
  {
    TagCountGrows(html, i, j);
    SynthesizedIdsDistinct(TagCount(html[..i]), TagCount(html[..j]));
  }

  /**
    A worked example of WithHeadingIdsKeeps: a tag that keeps its own id still
    advances the counter, so the next tag gets `heading-1`.
  */
  lemma SkippedTagAdvancesCounter()
    ensures WithHeadingIds([HeadingTag('1', " id=\"top\""), HeadingTag('2', [])])
         == [HeadingTag('1', " id=\"top\""), HeadingTag('2', " id=\"heading-1\"")]
  {
    var html := [HeadingTag('1', " id=\"top\""), HeadingTag('2', [])];
    var a := html[0].attributes;
    assert a[1..][..3] == "id=";
    assert Contains(a, "id=");
    assert WithHeadingIds(html)[0] == html[0];
    assert html[..1][..0] == [];
    assert TagCount(html[..1]) == 1;
    assert !Contains([], "id=");
    assert NatToString(1) == "1";
    assert IdAttribute(1) == " id=\"heading-1\"";
    assert WithHeadingIds(html)[1] == HeadingTag('2', " id=\"heading-1\"");
  }

  // ---------------------------------------------------------------------
  // GenerateAndInsertTable and its bounds check
  // ---------------------------------------------------------------------

  /** StringBuilder.AppendLine on Windows. */
  const NewLine: string := "\r\n"

  const SeparatorCell: string := "-----|"
  const DataCell: string := " 内容 |"

  /** `n` copies of `s`. */
  function Repeat(s: string, n: nat): string
  {
    if n == 0 then [] else Repeat(s, n - 1) + s
  }

  /** The header cell of column `i`, counted from 1. */
  function HeaderCell(i: nat): string
  {
    " 列" + NatToString(i) + " |"
  }

  /** The header cells of columns 1 to `n`. */
  function HeaderCells(n: nat): string
  {
    if n == 0 then [] else HeaderCells(n - 1) + HeaderCell(n)
  }

  function HeaderRow(cols: nat): string { "|" + HeaderCells(cols) }
  /** A row of `cols` copies of `cell` after the opening `|`. */
  function Row(cell: string, cols: nat): string { "|" + Repeat(cell, cols) }

  function SeparatorRow(cols: nat): string { Row(SeparatorCell, cols) }
  function DataRow(cols: nat): string { Row(DataCell, cols) }

  /** The lines of the table: header, separator, then `rows` data rows. */
  function TableLines(rows: nat, cols: nat): (ls: seq<string>)
    ensures |ls| == rows + 2
  {
    if rows == 0 then [HeaderRow(cols), SeparatorRow(cols)]
    else TableLines(rows - 1, cols) + [DataRow(cols)]
  }

  /** Each line followed by a line break. */
  function Lines(ls: seq<string>): string
  {
    if ls == [] then [] else Lines(ls[..|ls| - 1]) + ls[|ls| - 1] + NewLine
  }

  /** The text GenerateAndInsertTable inserts: an empty line, then the table's lines. */
  function TableText(rows: nat, cols: nat): string
  {
    NewLine + Lines(TableLines(rows, cols))
  }

  /** Appends `|` and then the header cells of columns 1 to `cols`. */
  method AppendHeaderRow(sb: string, cols: nat) returns (out: string)
    ensures out == sb + HeaderRow(cols)
  {
    out := sb + "|";
    for i := 1 to cols + 1
      invariant out == sb + "|" + HeaderCells(i - 1)
    {
      out := out + HeaderCell(i);
    }
  }

  /** Appends `|` and then `cols` copies of `cell`. */
  method AppendRow(sb: string, cell: string, cols: nat) returns (out: string)
    ensures out == sb + Row(cell, cols)
  {
    out := sb + "|";
    for c := 0 to cols
      invariant out == sb + "|" + Repeat(cell, c)
    {
      out := out + cell;
    }
    assert sb + "|" + Repeat(cell, cols) == sb + Row(cell, cols);
  }

  /** Appending a line and a line break extends the joined lines by one. */
  lemma LinesSnoc(ls: seq<string>, line: string)
    ensures Lines(ls + [line]) == Lines(ls) + line + NewLine
  {
    assert (ls + [line])[..|ls|] == ls;
  }

  /** GenerateAndInsertTable's StringBuilder loops. */
  method GenerateTable(rows: nat, cols: nat) returns (sb: string)
    ensures sb == TableText(rows, cols)
  {
    sb := NewLine;
    sb := AppendHeaderRow(sb, cols);
    sb := sb + NewLine;
    sb := AppendRow(sb, SeparatorCell, cols);
    sb := sb + NewLine;
    TableStart(cols);
    for r := 0 to rows
      invariant sb == NewLine + Lines(TableLines(r, cols))
    {
      sb := AppendRow(sb, DataCell, cols);
      sb := sb + NewLine;
      TableStep(r, cols);
    }
  }

  /** The text before the data rows: a line break, then the header and the separator lines. */
  lemma TableStart(cols: nat)
    ensures NewLine + HeaderRow(cols) + NewLine + SeparatorRow(cols) + NewLine
         == NewLine + Lines(TableLines(0, cols))
  {
    var h, sep := HeaderRow(cols), SeparatorRow(cols);
    LinesSnoc([], h);
    assert [] + [h] == [h];
    LinesSnoc([h], sep);
    assert [h] + [sep] == TableLines(0, cols);
  }

  /** Each data row extends the table text by one line. */
  lemma TableStep(r: nat, cols: nat)
    ensures NewLine + Lines(TableLines(r, cols)) + DataRow(cols) + NewLine
         == NewLine + Lines(TableLines(r + 1, cols))
  {
    LinesSnoc(TableLines(r, cols), DataRow(cols));
  }

  /** The number of occurrences of `c` in `s`. */
  function Count(s: string, c: char): nat
  {
    if s == [] then 0 else (if s[0] == c then 1 else 0) + Count(s[1..], c)
  }

  lemma {:induction false} CountConcat(a: string, b: string, c: char)
    ensures Count(a + b, c) == Count(a, c) + Count(b, c)
    decreases |a|
  {
    if a == [] {
      assert a + b == b;
    } else {
      assert (a + b)[0] == a[0];
      assert (a + b)[1..] == a[1..] + b;
      CountConcat(a[1..], b, c);
    }
  }

  lemma {:induction false} CountRepeat(s: string, n: nat, c: char)
    ensures Count(Repeat(s, n), c) == n * Count(s, c)
  {
    if n > 0 {
      CountRepeat(s, n - 1, c);
      CountConcat(Repeat(s, n - 1), s, c);
    }
  }

  lemma {:induction false} CountAbsent(s: string, c: char)
    requires forall i :: 0 <= i < |s| ==> s[i] != c
    ensures Count(s, c) == 0
    decreases |s|
  {
    if s != [] {
      CountAbsent(s[1..], c);
    }
  }

  /** Every cell of the header ends in one `|` and holds no other `|` or line break. */
  lemma {:induction false} HeaderCellsCount(n: nat, c: char)
    requires c == '|' || c == '\r' || c == '\n'
    ensures Count(HeaderCells(n), c) == if c == '|' then n else 0
  {
    if n > 0 {
      HeaderCellsCount(n - 1, c);
      CountConcat(HeaderCells(n - 1), HeaderCell(n), c);
      var d := NatToString(n);
      CountAbsent(d, c);
      CountConcat(" 列", d, c);
      CountConcat(" 列" + d, " |", c);
    }
  }

  /** `|` ends every non-empty repetition of a cell that ends in `|`. */
  lemma RepeatEnds(s: string, n: nat)
    requires s != [] && s[|s| - 1] == '|'
    ensures var r := "|" + Repeat(s, n); r[|r| - 1] == '|'
  {
  }

  lemma HeaderCellsEnd(n: nat)
    ensures var r := "|" + HeaderCells(n); r[|r| - 1] == '|'
  {
  }

  /** A line of the table: starts and ends with `|`, has `cols + 1` of them, no line break. */
  predicate TableLine(line: string, cols: nat)
  {
    line != [] && line[0] == '|' && line[|line| - 1] == '|' &&
    Count(line, '|') == cols + 1 && Count(line, '\r') == 0 && Count(line, '\n') == 0
  }

  /** Each body cell holds exactly one `|` and no line break. */
  lemma CellCounts(cell: string)
    requires cell == SeparatorCell || cell == DataCell
    ensures Count(cell, '|') == 1 && Count(cell, '\r') == 0 && Count(cell, '\n') == 0
  {
    CountAbsent(cell[..|cell| - 1], '|');
    assert cell == cell[..|cell| - 1] + "|";
    CountConcat(cell[..|cell| - 1], "|", '|');
    CountConcat(cell[..|cell| - 1], "|", '\r');
    CountConcat(cell[..|cell| - 1], "|", '\n');
  }

  lemma {:induction false} RowCount(cell: string, cols: nat, c: char)
    ensures Count("|" + Repeat(cell, cols), c) == Count("|", c) + cols * Count(cell, c)
  {
    CountConcat("|", Repeat(cell, cols), c);
    CountRepeat(cell, cols, c);
  }

  lemma RowIsTableLine(cell: string, cols: nat)
    requires cell == SeparatorCell || cell == DataCell
    ensures TableLine("|" + Repeat(cell, cols), cols)
  {
    RepeatEnds(cell, cols);
    CellCounts(cell);
    RowCount(cell, cols, '|');
    RowCount(cell, cols, '\r');
    RowCount(cell, cols, '\n');
  }

  lemma HeaderIsTableLine(cols: nat)
    ensures TableLine(HeaderRow(cols), cols)
  {
    HeaderCellsEnd(cols);
    HeaderCellsCount(cols, '|');
    HeaderCellsCount(cols, '\r');
    HeaderCellsCount(cols, '\n');
    CountConcat("|", HeaderCells(cols), '|');
    CountConcat("|", HeaderCells(cols), '\r');
    CountConcat("|", HeaderCells(cols), '\n');
  }

  /**
    The generated table has `rows + 2` lines, each a row of `cols` cells
    between `|` characters; the second line is the separator and every line
    after it is an empty data row.
  */
  lemma {:induction false} TableShape(rows: nat, cols: nat)
    ensures var ls := TableLines(rows, cols);
            ls[0] == HeaderRow(cols) && ls[1] == SeparatorRow(cols) &&
            (forall k :: 2 <= k < |ls| ==> ls[k] == DataRow(cols)) &&
            (forall k :: 0 <= k < |ls| ==> TableLine(ls[k], cols))
  {
    HeaderIsTableLine(cols);
    RowIsTableLine(SeparatorCell, cols);
    RowIsTableLine(DataCell, cols);
    if rows > 0 {
      TableShape(rows - 1, cols);
    }
  }

  /** The dialog's check: both fields parsed, 1 to 20 rows and 1 to 10 columns. */
  predicate TableSizeAccepted(rows: Option<int>, cols: Option<int>)
  {
    rows.Some? && cols.Some? && 0 < rows.value <= 20 && 0 < cols.value <= 10
  }

  /** An accepted size yields a table of 3 to 22 lines of 1 to 10 cells. */
  lemma AcceptedTableBounds(rows: Option<int>, cols: Option<int>)
    requires TableSizeAccepted(rows, cols)
    ensures var ls := TableLines(rows.value, cols.value);
            3 <= |ls| <= 22 &&
            forall k :: 0 <= k < |ls| ==> 2 <= Count(ls[k], '|') <= 11
  {
    TableShape(rows.value, cols.value);
  }

  // ---------------------------------------------------------------------
  // InsertMarkdownSyntax: wrapping the selection
  // ---------------------------------------------------------------------

  /** The text box: its text and the selection `[start, start + length)`. */
  datatype Selection = Selection(text: string, start: nat, length: nat)

  predicate Inside(s: Selection)
  {
    s.start + s.length <= |s.text|
  }

  function SelectedText(s: Selection): string
    requires Inside(s)
  {
    s.text[s.start..s.start + s.length]
  }

  /**
    The selection replaced by `prefix + t + suffix`, `t` being the selected
    text or `defaultText` when nothing is selected, and `t` selected afterwards.
  */
  function Wrap(s: Selection, prefix: string, suffix: string, defaultText: string): (r: Selection)
    requires Inside(s)
    ensures Inside(r)
  {
    var t := if s.length == 0 then defaultText else SelectedText(s);
    Selection(s.text[..s.start] + prefix + t + suffix + s.text[s.start + s.length..],
              s.start + |prefix|, |t|)
  }

  /**
    After wrapping, the new selection is the old selected text (or the default
    text), the prefix sits right before it and the suffix right after it, and
    the text before and after the old selection is unchanged.
  */
  lemma WrapSelects(s: Selection, prefix: string, suffix: string, defaultText: string)
    requires Inside(s)
    ensures var r := Wrap(s, prefix, suffix, defaultText);
            SelectedText(r) == (if s.length == 0 then defaultText else SelectedText(s)) &&
            r.start == s.start + |prefix| &&
            r.text[..s.start] == s.text[..s.start] &&
            r.text[s.start..r.start] == prefix &&
            r.text[r.start + r.length..] == suffix + s.text[s.start + s.length..]
  {
    var r := Wrap(s, prefix, suffix, defaultText);
    var t := if s.length == 0 then defaultText else SelectedText(s);
    var head, tail := s.text[..s.start], s.text[s.start + s.length..];
    assert r.text == head + prefix + t + suffix + tail;
    assert r.text[..s.start] == head;
    assert r.text[s.start..r.start] == prefix;
    assert r.text[r.start..r.start + r.length] == t;
    assert r.text[r.start + r.length..] == suffix + tail;
  }

  /** Removing the inserted prefix and suffix restores the original text. */
  lemma WrapUndo(s: Selection, prefix: string, suffix: string, defaultText: string)
    requires Inside(s) && s.length > 0
    ensures var r := Wrap(s, prefix, suffix, defaultText);
            r.start + r.length + |suffix| <= |r.text| &&
            r.text[..s.start] + SelectedText(r) + r.text[r.start + r.length + |suffix|..] == s.text
  {
    var r := Wrap(s, prefix, suffix, defaultText);
    WrapSelects(s, prefix, suffix, defaultText);
    var tail := s.text[s.start + s.length..];
    assert r.text[r.start + r.length + |suffix|..] == (suffix + tail)[|suffix|..];
    assert s.text == s.text[..s.start] + SelectedText(s) + tail;
  }

  // ---------------------------------------------------------------------
  // View flags
  // ---------------------------------------------------------------------

  /** The view mode after ToggleView: 0 (both), 1 (editor only), 2 (preview only), then 0 again. */
  function NextMode(mode: int): (m: int)
    requires 0 <= mode < 3
    ensures 0 <= m < 3
    ensures m == 0 <==> mode == 2
  {
    (mode + 1) % 3
  }

  /** (editor visible, preview visible) for each view mode. */
  function ModeFlags(mode: int): (r: (bool, bool))
    requires 0 <= mode < 3
    ensures r.0 || r.1
    ensures r.0 <==> mode != 2
    ensures r.1 <==> mode != 1
  {
    if mode == 0 then (true, true) else if mode == 1 then (true, false) else (false, true)
  }

  /** UpdateViewVisibility's repair: the preview comes back when both are hidden. */
  function Repair(editor: bool, preview: bool): (r: (bool, bool))
    ensures r.0 || r.1
    ensures r.0 == editor
    ensures editor || preview ==> r == (editor, preview)
  {
    if !editor && !preview then (editor, true) else (editor, preview)
  }

  /** Three ToggleView clicks return to the starting mode, visiting every mode once. */
  lemma ModeCycle(mode: int)
    requires 0 <= mode < 3
    ensures NextMode(NextMode(NextMode(mode))) == mode
    ensures {mode, NextMode(mode), NextMode(NextMode(mode))} == {0, 1, 2}
  {
  }

  /** Repairing twice is the same as repairing once. */
  lemma RepairIdempotent(editor: bool, preview: bool)
    ensures Repair(Repair(editor, preview).0, Repair(editor, preview).1) == Repair(editor, preview)
  {
  }

  /** The editor window's text box and view flags. */
  class EditorWindow {
    var text: string
    var selectionStart: nat
    var selectionLength: nat
    var viewMode: int
    var isEditorVisible: bool
    var isPreviewVisible: bool

    /** The selection lies in the text, the mode is one of three, and something is shown. */
    ghost predicate Valid()
      reads this
    {
      selectionStart + selectionLength <= |text| &&
      0 <= viewMode < 3 &&
      (isEditorVisible || isPreviewVisible)
    }

    function Box(): Selection
      reads this
    {
      Selection(text, selectionStart, selectionLength)
    }

    /** The window opens in preview-only mode with an empty text box. */
    constructor ()
      ensures Valid()
      ensures text == [] && selectionStart == 0 && selectionLength == 0
      ensures viewMode == 2 && !isEditorVisible && isPreviewVisible
    {
      text := [];
      selectionStart := 0;
      selectionLength := 0;
      viewMode := 2;
      isEditorVisible := false;
      isPreviewVisible := true;
    }

    method UpdateViewVisibility()
      modifies this
      ensures (isEditorVisible, isPreviewVisible) == Repair(old(isEditorVisible), old(isPreviewVisible))
      ensures text == old(text) && selectionStart == old(selectionStart)
      ensures selectionLength == old(selectionLength) && viewMode == old(viewMode)
    {
      if !isEditorVisible && !isPreviewVisible {
        isPreviewVisible := true;
      }
    }

    method ToggleEditor()
      requires Valid()
      modifies this
      ensures Valid()
      ensures (isEditorVisible, isPreviewVisible) == Repair(!old(isEditorVisible), old(isPreviewVisible))
      ensures text == old(text) && selectionStart == old(selectionStart)
      ensures selectionLength == old(selectionLength) && viewMode == old(viewMode)
    {
      isEditorVisible := !isEditorVisible;
      UpdateViewVisibility();
    }

    method TogglePreview()
      requires Valid()
      modifies this
      ensures Valid()
      ensures (isEditorVisible, isPreviewVisible) == Repair(old(isEditorVisible), !old(isPreviewVisible))
      ensures text == old(text) && selectionStart == old(selectionStart)
      ensures selectionLength == old(selectionLength) && viewMode == old(viewMode)
    {
      isPreviewVisible := !isPreviewVisible;
      UpdateViewVisibility();
    }

    method ToggleView()
      requires Valid()
      modifies this
      ensures Valid()
      ensures viewMode == NextMode(old(viewMode))
      ensures (isEditorVisible, isPreviewVisible) == ModeFlags(viewMode)
      ensures text == old(text) && selectionStart == old(selectionStart)
      ensures selectionLength == old(selectionLength)
    {
      viewMode := (viewMode + 1) % 3;
      if viewMode == 0 {
        isEditorVisible := true;
        isPreviewVisible := true;
      } else if viewMode == 1 {
        isEditorVisible := true;
        isPreviewVisible := false;
      } else {
        isEditorVisible := false;
        isPreviewVisible := true;
      }
      UpdateViewVisibility();
    }

    /**
      Shows the editor (switching to the two-pane mode) if it is hidden, then
      wraps the selection in `prefix` and `suffix` and selects the wrapped text.
    */
    method InsertMarkdownSyntax(prefix: string, suffix: string, defaultText: string)
      requires Valid()
      modifies this
      ensures Valid()
      ensures Box() == Wrap(old(Box()), prefix, suffix, defaultText)
      ensures old(isEditorVisible) ==>
                viewMode == old(viewMode) && isEditorVisible && isPreviewVisible == old(isPreviewVisible)
      ensures !old(isEditorVisible) ==> viewMode == 0 && isEditorVisible && isPreviewVisible
    {
      if !isEditorVisible {
        viewMode := 0;
        isEditorVisible := true;
        isPreviewVisible := true;
        UpdateViewVisibility();
      }
      ghost var before := Box();
      var start := selectionStart;
      var selected := text[selectionStart..selectionStart + selectionLength];
      if selected == [] {
        selected := defaultText;
      }
      assert selected == if before.length == 0 then defaultText else SelectedText(before);
      text := text[..selectionStart] + prefix + selected + suffix + text[selectionStart + selectionLength..];
      selectionStart := start + |prefix|;
      selectionLength := |selected|;
    }

    method GenerateAndInsertTable(rows: nat, cols: nat)
      requires Valid()
      modifies this
      ensures Valid()
      ensures Box() == Wrap(old(Box()), TableText(rows, cols), "", "")
      ensures old(isEditorVisible) ==>
                viewMode == old(viewMode) && isEditorVisible && isPreviewVisible == old(isPreviewVisible)
      ensures !old(isEditorVisible) ==> viewMode == 0 && isEditorVisible && isPreviewVisible
    {
      var table := GenerateTable(rows, cols);
      InsertMarkdownSyntax(table, "", "");
    }

    /**
      The OK branch of the table dialog: with parsed sizes in range the table
      is inserted, otherwise (the warning box) nothing changes.
    */
    method InsertTable(rows: Option<int>, cols: Option<int>) returns (inserted: bool)
      requires Valid()
      modifies this
      ensures Valid()
      ensures inserted <==> TableSizeAccepted(rows, cols)
      ensures inserted ==> Box() == Wrap(old(Box()), TableText(rows.value, cols.value), "", "")
      ensures inserted && old(isEditorVisible) ==>
                viewMode == old(viewMode) && isEditorVisible && isPreviewVisible == old(isPreviewVisible)
      ensures inserted && !old(isEditorVisible) ==> viewMode == 0 && isEditorVisible && isPreviewVisible
      ensures !inserted ==> (Box() == old(Box()) && viewMode == old(viewMode) &&
                             isEditorVisible == old(isEditorVisible) &&
                             isPreviewVisible == old(isPreviewVisible))
    {
      if rows.Some? && cols.Some? && rows.value > 0 && rows.value <= 20 && cols.value > 0 && cols.value <= 10 {
        GenerateAndInsertTable(rows.value, cols.value);
        inserted := true;
      } else {
        inserted := false;
      }
    }
  }
}

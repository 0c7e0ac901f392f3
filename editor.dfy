/**
 * The text transforms of the note editor. Each toolbar action reads the note
 * content and the textarea's selection `[start, end)`, builds the new content
 * by splicing text around or in place of the selection, and asks for a new
 * selection. The selection the browser reports always satisfies
 * `0 <= start <= end <= |content|`.
 */
module Editor {
  import opened Wrappers
  import opened Wire
  import opened JsText

  /** New content and the selection range requested for it. */
  datatype Edit = Edit(content: string, selStart: int, selEnd: int)

  predicate ValidSelection(content: string, start: int, end: int)
  {
    0 <= start <= end <= |content|
  }

  /** `${before}${inserted}${after}`, where `before` and `after` are the
      content on either side of the selection. */
  function Splice(content: string, start: int, end: int, inserted: string): (r: string)
    requires ValidSelection(content, start, end)
    ensures |r| == |content| - (end - start) + |inserted|
    ensures r[..start] == content[..start]
    ensures r[start..start + |inserted|] == inserted
    ensures r[start + |inserted|..] == content[end..]
  {
    content[..start] + inserted + content[end..]
  }

  // ---------------------------------------------------------------------
  // Bold, italic and underline (NoteEditor.tsx lines 351-386)
  // ---------------------------------------------------------------------

  datatype Format = Bold | Italic | Underline

  function OpenMarker(f: Format): string
  {
    match f
    case Bold => "**"
    case Italic => "*"
    case Underline => "<u>"
  }

  function CloseMarker(f: Format): string
  {
    match f
    case Bold => "**"
    case Italic => "*"
    case Underline => "</u>"
  }

  /** The `cursorOffset` each format sets. */
  function CursorOffset(f: Format): int
  {
    match f
    case Bold => 2
    case Italic => 1
    case Underline => 2
  }

  /** `formatText(f)` as written: wrap the selection in the format's markers
      and shift the selection by `cursorOffset`. */
  function FormatText(content: string, start: int, end: int, f: Format): (r: Edit)
    requires ValidSelection(content, start, end)
    ensures |r.content| == |content| + |OpenMarker(f)| + |CloseMarker(f)|
    ensures r.selEnd - r.selStart == end - start
    ensures r.selStart == start + CursorOffset(f) && r.selEnd == end + CursorOffset(f)
    ensures ValidSelection(r.content, r.selStart, r.selEnd)
  {
    var wrapped := OpenMarker(f) + content[start..end] + CloseMarker(f);
    Edit(Splice(content, start, end, wrapped), start + CursorOffset(f), end + CursorOffset(f))
  }

  /** Takes the markers of `f` back out of formatted content, given the
      original selection. */
  function Unwrap(formatted: string, start: int, end: int, f: Format): string
    requires 0 <= start <= end
    requires end + |OpenMarker(f)| + |CloseMarker(f)| <= |formatted|
  {
    var open, close := |OpenMarker(f)|, |CloseMarker(f)|;
    formatted[..start] + formatted[start + open..end + open] + formatted[end + open + close..]
  }

  /** Wrapping the selection in `open` and `close`: the text before the
      selection, the opening marker, the selected text, the closing marker
      and the text after the selection follow each other. */
  lemma WrapPieces(content: string, start: int, end: int, open: string, close: string)
    requires ValidSelection(content, start, end)
    ensures var t := Splice(content, start, end, open + content[start..end] + close);
            && t[..start] == content[..start]
            && t[start..start + |open|] == open
            && t[start + |open|..end + |open|] == content[start..end]
            && t[end + |open|..end + |open| + |close|] == close
            && t[end + |open| + |close|..] == content[end..]
            && t[..start] + t[start + |open|..end + |open|] + t[end + |open| + |close|..] == content
  {
    var wrapped := open + content[start..end] + close;
    var t := Splice(content, start, end, wrapped);
    var w := |wrapped|;
    assert t[start..start + w] == wrapped;
    assert t[start..start + |open|] == t[start..start + w][..|open|];
    assert t[start + |open|..end + |open|] == t[start..start + w][|open|..|open| + end - start];
    assert t[end + |open|..end + |open| + |close|] == t[start..start + w][|open| + end - start..];
    assert content == content[..start] + content[start..end] + content[end..];
  }

  /** Formatting inserts the two markers around the selection and nothing
      else: they sit exactly at the ends of the selected text, and taking them
      back out gives the original content. */
  lemma FormatTextRoundTrip(content: string, start: int, end: int, f: Format)
    requires ValidSelection(content, start, end)
    ensures var r := FormatText(content, start, end, f);
            var open, close := |OpenMarker(f)|, |CloseMarker(f)|;
            && r.content[start..start + open] == OpenMarker(f)
            && r.content[end + open..end + open + close] == CloseMarker(f)
            && Unwrap(r.content, start, end, f) == content
  {
    WrapPieces(content, start, end, OpenMarker(f), CloseMarker(f));
  }

  /** For bold and italic the new selection covers exactly the text that was
      selected. */
  lemma FormatTextKeepsSelection(content: string, start: int, end: int, f: Format)
    requires ValidSelection(content, start, end) && f != Underline
    ensures var r := FormatText(content, start, end, f);
            r.content[r.selStart..r.selEnd] == content[start..end]
  {
    FormatTextRoundTrip(content, start, end, f);
  }

  /** For underline the selection is shifted by 2 while `<u>` has three
      characters: formatting "ab" selected whole selects ">a" and not "ab". */
  lemma UnderlineSelectionShifted()
    ensures var r := FormatText("ab", 0, 2, Underline);
            && r.content == "<u>ab</u>"
            && r.content[r.selStart..r.selEnd] == ">a"
            && r.content[r.selStart..r.selEnd] != "ab"
  {
    var r := FormatText("ab", 0, 2, Underline);
    assert r.content == "<u>ab</u>";
    assert r.content[2..4] == ">a";
  }

  /** `formatText` with the offset every format evidently intends: the length
      of its opening marker. */
  function FormatTextIntended(content: string, start: int, end: int, f: Format): (r: Edit)
    requires ValidSelection(content, start, end)
    ensures r.content == FormatText(content, start, end, f).content
    ensures ValidSelection(r.content, r.selStart, r.selEnd)
  {
    var r := FormatText(content, start, end, f);
    Edit(r.content, start + |OpenMarker(f)|, end + |OpenMarker(f)|)
  }

  /** With the intended offset, every format, underline included, selects
      exactly the text that was selected. */
  lemma FormatTextIntendedKeepsSelection(content: string, start: int, end: int, f: Format)
    requires ValidSelection(content, start, end)
    ensures var r := FormatTextIntended(content, start, end, f);
            r.content[r.selStart..r.selEnd] == content[start..end]
  {
    FormatTextRoundTrip(content, start, end, f);
  }

  // ---------------------------------------------------------------------
  // Tables (NoteEditor.tsx lines 388-423)
  // ---------------------------------------------------------------------

  /** `Array(n).fill(cell).join(" | ")`. */
  function Cells(cell: string, n: nat): string
  {
    if n == 0 then [] else if n == 1 then cell else Cells(cell, n - 1) + " | " + cell
  }

  /** One table line: `"| " + cells + " |\n"`. */
  function Row(cell: string, n: nat): string
  {
    "| " + Cells(cell, n) + " |\n"
  }

  /** `s` written `n` times. */
  function Repeat(s: string, n: nat): string
  {
    if n == 0 then [] else Repeat(s, n - 1) + s
  }

  /** The block `handleTable` inserts: a newline, a header line, a separator
      line and `rows` data lines, each line with `cols` cells. */
  function TableMarkdown(rows: nat, cols: nat): string
  {
    "\n" + Row("Header", cols) + Row("---", cols) + Repeat(Row("Data", cols), rows)
  }

  lemma {:induction false} CellsLength(cell: string, n: nat)
    requires n >= 1
    ensures |Cells(cell, n)| == n * |cell| + 3 * (n - 1)
  {
    if n > 1 {
      CellsLength(cell, n - 1);
    }
  }

  lemma {:induction false} RepeatLength(s: string, n: nat)
    ensures |Repeat(s, n)| == n * |s|
  {
    if n > 0 {
      RepeatLength(s, n - 1);
    }
  }

  /** The length of the inserted block, and so the cursor's distance from
      the start of the selection: a header line of `9 * cols + 2` characters,
      a separator of `6 * cols + 2` and data lines of `7 * cols + 2`. */
  lemma TableLength(rows: nat, cols: nat)
    requires cols >= 1
    ensures |TableMarkdown(rows, cols)| == 1 + (9 * cols + 2) + (6 * cols + 2) + rows * (7 * cols + 2)
  {
    CellsLength("Header", cols);
    CellsLength("---", cols);
    CellsLength("Data", cols);
    RepeatLength(Row("Data", cols), rows);
  }

  /** A cell text without line breaks gives cells without line breaks. */
  lemma {:induction false} CellsNoNewline(cell: string, n: nat)
    requires '\n' !in cell
    ensures '\n' !in Cells(cell, n)
  {
    if n > 1 {
      CellsNoNewline(cell, n - 1);
    }
  }

  lemma {:induction false} RepeatCount(s: string, n: nat, c: char)
    ensures multiset(Repeat(s, n))[c] == n * multiset(s)[c]
  {
    if n > 0 {
      RepeatCount(s, n - 1, c);
      assert multiset(Repeat(s, n)) == multiset(Repeat(s, n - 1)) + multiset(s);
      assert (n - 1) * multiset(s)[c] + multiset(s)[c] == n * multiset(s)[c];
    }
  }

  /** A line made of cells without line breaks holds exactly one, at its
      end. */
  lemma RowLineBreaks(cell: string, n: nat)
    requires '\n' !in cell
    ensures multiset(Row(cell, n))['\n'] == 1
  {
    CellsNoNewline(cell, n);
    assert multiset(Cells(cell, n))['\n'] == 0;
    assert multiset(Row(cell, n)) == multiset("| ") + multiset(Cells(cell, n)) + multiset(" |\n");
  }

  lemma BlockLineBreaks(header: string, rule: string, data: string, rows: nat)
    requires multiset(header)['\n'] == 1 && multiset(rule)['\n'] == 1 && multiset(data)['\n'] == 1
    ensures multiset("\n" + header + rule + Repeat(data, rows))['\n'] == rows + 3
  {
    RepeatCount(data, rows, '\n');
  }

  lemma CellTextsHaveNoLineBreak()
    ensures '\n' !in "Header" && '\n' !in "---" && '\n' !in "Data"
  {
  }

  /** The block holds `rows + 3` line breaks: the leading one and one at the
      end of each of its `rows + 2` lines. */
  lemma TableLineBreaks(rows: nat, cols: nat)
    ensures multiset(TableMarkdown(rows, cols))['\n'] == rows + 3
  {
    CellTextsHaveNoLineBreak();
    RowLineBreaks("Header", cols);
    RowLineBreaks("---", cols);
    RowLineBreaks("Data", cols);
    BlockLineBreaks(Row("Header", cols), Row("---", cols), Row("Data", cols), rows);
  }

  /** `handleTable(rows, cols)`: nothing happens unless both counts are
      positive; otherwise the block is built line by line, replaces the
      selection, and the cursor goes right after it. */
  method HandleTable(content: string, start: int, end: int, rows: int, cols: int) returns (r: Option<Edit>)
    requires ValidSelection(content, start, end)
    ensures r.None? <==> rows <= 0 || cols <= 0
    ensures r.Some? ==>
              var table := TableMarkdown(rows, cols);
              && r.value.content == Splice(content, start, end, table)
              && r.value.selStart == r.value.selEnd == start + |table|
  {
    if rows <= 0 || cols <= 0 {
      return None;
    }
    var table := "\n";
    table := table + Row("Header", cols);
    table := table + Row("---", cols);
    var i := 0;
    while i < rows
      invariant 0 <= i <= rows
      invariant table == "\n" + Row("Header", cols) + Row("---", cols) + Repeat(Row("Data", cols), i)
    {
      table := table + Row("Data", cols);
      i := i + 1;
    }
    var before := content[..start];
    var after := content[end..];
    r := Some(Edit(before + table + after, start + |table|, start + |table|));
  }

  // ---------------------------------------------------------------------
  // Links (NoteEditor.tsx lines 425-446)
  // ---------------------------------------------------------------------

  /** `handleLink()`: the selection, or `link text` when nothing is
      selected, becomes the text of a link to `url`, and that text is
      selected. */
  function HandleLink(content: string, start: int, end: int): (r: Edit)
    requires ValidSelection(content, start, end)
    ensures ValidSelection(r.content, r.selStart, r.selEnd)
    ensures var linkText := if start == end then "link text" else content[start..end];
            && r.content == Splice(content, start, end, "[" + linkText + "](url)")
            && r.selStart == start + 1 && r.selEnd == start + 1 + |linkText|
            && r.content[r.selStart..r.selEnd] == linkText
  {
    var selected := content[start..end];
    var linkText := if selected != [] then selected else "link text";
    var newText := Splice(content, start, end, "[" + linkText + "](url)");
    assert newText[start + 1..start + 1 + |linkText|] == ("[" + linkText + "](url)")[1..1 + |linkText|];
    if selected != [] then Edit(newText, start + 1, end + 1)
    else Edit(newText, start + 1, start + 10)
  }

  // ---------------------------------------------------------------------
  // Headings (NoteEditor.tsx lines 468-500)
  // ---------------------------------------------------------------------

  /** The prefix each paragraph option inserts, for the three heading
      options. */
  function HeadingPrefix(option: string): Option<string>
  {
    if option == "Title" then Some("# ")
    else if option == "Heading 1" then Some("## ")
    else if option == "Heading 2" then Some("### ")
    else None
  }

  /** What `handleParagraph` leaves behind: the edit, if any, and the
      current format. */
  datatype Paragraph = Paragraph(edit: Option<Edit>, format: string)

  /** `handleParagraph(option)` as written: a heading option inserts its
      prefix before the selection and becomes the current format; any other
      option changes nothing. The cursor requested is `start` plus the length
      of the whole new content. */
  function HandleParagraph(content: string, start: int, end: int, option: string, current: string)
    : (r: Paragraph)
    requires ValidSelection(content, start, end)
    ensures r.edit.None? <==> option !in {"Title", "Heading 1", "Heading 2"}
    ensures r.edit.None? ==> r.format == current
    ensures r.edit.Some? ==>
              && r.format == option
              && |r.edit.value.content| == |content| + |HeadingPrefix(option).value|
              && r.edit.value.content[..start] == content[..start]
              && r.edit.value.content[start..start + |HeadingPrefix(option).value|] == HeadingPrefix(option).value
              && r.edit.value.content[start + |HeadingPrefix(option).value|..] == content[start..]
              && r.edit.value.selStart == r.edit.value.selEnd == start + |r.edit.value.content|
  {
    match HeadingPrefix(option)
    case None => Paragraph(None, current)
    case Some(prefix) =>
      var newText := Splice(content, start, end, prefix + content[start..end]);
      // a heading is a wrap whose closing marker is empty
      assert prefix + content[start..end] + "" == prefix + content[start..end];
      WrapPieces(content, start, end, prefix, "");
      var t := newText[start + |prefix|..];
      assert t == t[..end - start] + t[end - start..];
      assert content[start..] == content[start..end] + content[end..];
      Paragraph(Some(Edit(newText, start + |newText|, start + |newText|)), option)
  }

  /** With anything before the selection, the cursor `handleParagraph` asks
      for lies past the end of the content, so the browser puts it at the
      end of the note: in "ab" with the cursor after "a", a title asks for
      position 5 of the 4 characters "a# b". */
  lemma ParagraphCursorPastEnd(content: string, start: int, end: int, option: string, current: string)
    requires ValidSelection(content, start, end) && start > 0
    requires option in {"Title", "Heading 1", "Heading 2"}
    ensures var e := HandleParagraph(content, start, end, option, current).edit.value;
            e.selStart > |e.content|
  {
  }

  lemma ParagraphCursorExample()
    ensures var e := HandleParagraph("ab", 1, 1, "Title", "Paragraph").edit.value;
            e.content == "a# b" && e.selStart == 5
  {
    var e := HandleParagraph("ab", 1, 1, "Title", "Paragraph").edit.value;
    assert e.content == "a# b";
  }

  /** `handleParagraph` with the cursor right after the inserted heading text,
      the way `handleTable` places it after the inserted table. */
  function HandleParagraphIntended(content: string, start: int, end: int, option: string, current: string)
    : (r: Paragraph)
    requires ValidSelection(content, start, end)
    ensures r.format == HandleParagraph(content, start, end, option, current).format
    ensures r.edit.None? <==> HandleParagraph(content, start, end, option, current).edit.None?
    ensures r.edit.Some? ==> r.edit.value.content == HandleParagraph(content, start, end, option, current).edit.value.content
  {
    match HeadingPrefix(option)
    case None => Paragraph(None, current)
    case Some(prefix) =>
      var inserted := prefix + content[start..end];
      var newText := Splice(content, start, end, inserted);
      Paragraph(Some(Edit(newText, start + |inserted|, start + |inserted|)), option)
  }

  /** With the intended cursor, the cursor stays inside the content and sits
      right after the heading prefix and the selected text. */
  lemma HandleParagraphIntendedCursor(content: string, start: int, end: int, option: string, current: string)
    requires ValidSelection(content, start, end)
    requires option in {"Title", "Heading 1", "Heading 2"}
    ensures var e := HandleParagraphIntended(content, start, end, option, current).edit.value;
            var prefix := HeadingPrefix(option).value;
            && e.selStart == e.selEnd
            && 0 <= e.selStart <= |e.content|
            && e.content[..e.selStart] == content[..start] + prefix + content[start..end]
  {
    var e := HandleParagraphIntended(content, start, end, option, current).edit.value;
    var prefix := HeadingPrefix(option).value;
    var inserted := prefix + content[start..end];
    assert e.content[..start] == content[..start];
    assert e.content[start..start + |inserted|] == inserted;
    assert e.content[..e.selStart] == e.content[..start] + e.content[start..start + |inserted|];
  }

  // ---------------------------------------------------------------------
  // Content changes, typing and saving
  // ---------------------------------------------------------------------

  /** The most content the textarea accepts and a save sends. */
  const MaxContent := 100000
  /** The longest title a save sends. */
  const MaxTitle := 100

  /** `handleContentChange(content)` (lines 170-173): the payload sent to the
      other editors is the note prop with the new content and the folder
      state. The title is the prop's, whatever the title field now holds:
      `titleField` is deliberately unused, and `p.title == note.title` is the
      point of the contract, since a renamed title does not reach the other
      editors until the note is saved. */
  function ContentChangePayload(note: NotePayload, titleField: string, content: string, folder: string)
    : (p: NotePayload)
    ensures p.id == note.id && p.title == note.title && p.createdAt == note.createdAt
    ensures p.content == content && p.folder == folder
  {
    note.(content := content, folder := folder)
  }

  /** The textarea's `onChange` (lines 939-942): a value longer than the cap
      is ignored and the content stays as it was. */
  function TypeInTextarea(current: string, value: string): (r: string)
    ensures |value| <= MaxContent ==> r == value
    ensures |value| > MaxContent ==> r == current
    ensures |current| <= MaxContent ==> |r| <= MaxContent
  {
    if |value| <= MaxContent then value else current
  }

  datatype SaveRequest =
    | Put(noteId: string, title: string, content: string)
    | Post(title: string, content: string)

  /** `handleSaveNote` up to the request (lines 222-253): nothing is sent when
      the title is over 100 characters or the content over 100000;
      otherwise an existing note (a non-empty id) is updated with PUT and a
      new one created with POST, carrying the title and content. */
  function SaveNote(noteId: Option<string>, title: string, content: string): (r: Option<SaveRequest>)
    ensures r.None? <==> |title| > MaxTitle || |content| > MaxContent
    ensures r.Some? ==> r.value.title == title && r.value.content == content
    ensures r.Some? ==> (r.value.Put? <==> noteId.Some? && noteId.value != [])
    ensures r.Some? && r.value.Put? ==> r.value.noteId == noteId.value
  {
    if |title| > MaxTitle then None
    else if |content| > MaxContent then None
    else if noteId.Some? && noteId.value != [] then Some(Put(noteId.value, title, content))
    else Some(Post(title, content))
  }

  /** Content that only ever changed by typing passes the content guard of a
      save: typing from content within the cap never gets past it. */
  lemma {:induction false} TypedContentSaves(start: string, values: seq<string>, noteId: Option<string>, title: string)
    requires |start| <= MaxContent && |title| <= MaxTitle
    ensures SaveNote(noteId, title, TypeAll(start, values)).Some?
  {
    TypedWithinCap(start, values);
  }

  /** The content after typing each of `values` in turn. */
  function TypeAll(current: string, values: seq<string>): string
    decreases values
  {
    if values == [] then current else TypeAll(TypeInTextarea(current, values[0]), values[1..])
  }

  lemma {:induction false} TypedWithinCap(current: string, values: seq<string>)
    requires |current| <= MaxContent
    ensures |TypeAll(current, values)| <= MaxContent
    decreases values
  {
    if values != [] {
      TypedWithinCap(TypeInTextarea(current, values[0]), values[1..]);
    }
  }
}

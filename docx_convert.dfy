/**
 * pages/Convert_Docs.py: rendering a Word document's paragraphs and tables as
 * Markdown, joining the rendered blocks, and picking and renaming the images
 * stored in the document archive. A paragraph is its text and style name, a
 * table its rows of cell texts, the archive its list of entry names.
 */
module DocxConvert {
  import opened Results
  import opened Text
  import opened Seqs
  import opened Paths
  import ImagePlacer

  /** A Word paragraph: its text and the name of its style, which may be unset. */
  datatype Paragraph = Paragraph(text: string, styleName: Option<string>)

  /** A body element, in document order. */
  datatype Block = Para(paragraph: Paragraph) | Table(rows: seq<seq<string>>)

  // ---------------------------------------------------------------- paragraphs

  /** The style name as matched: lower-cased, empty when unset. */
  function StyleKey(p: Paragraph): string {
    Lower(p.styleName.GetOr(""))
  }

  /** The digit of level `num` (1 to 6) occurs in the style name. */
  predicate HasLevelDigit(style: string, num: nat)
    requires 1 <= num <= 6
  {
    DigitChar(num) in style
  }

  /** The level search started at `num`: the first level from `num` to 6 whose digit occurs, else 1. */
  function LevelFrom(style: string, num: nat): (level: nat)
    requires 1 <= num <= 7
    decreases 7 - num
  {
    if num == 7 then 1
    else if HasLevelDigit(style, num) then num
    else LevelFrom(style, num + 1)
  }

  /** The heading level the style gives. */
  function StyleLevel(style: string): nat {
    LevelFrom(style, 1)
  }

  /** The level search from `num` returns 1 or the first level at or after `num` whose digit occurs. */
  lemma {:induction false} LevelFromSpec(style: string, num: nat)
    requires 1 <= num <= 7
    ensures var level := LevelFrom(style, num);
      1 <= level <= 6 &&
      ((exists n :: num <= n <= 6 && HasLevelDigit(style, n)) ==>
        num <= level && HasLevelDigit(style, level) &&
        forall k :: num <= k < level ==> !HasLevelDigit(style, k)) &&
      ((forall n :: num <= n <= 6 ==> !HasLevelDigit(style, n)) ==> level == 1)
    decreases 7 - num
  {
    if num < 7 && !HasLevelDigit(style, num) {
      LevelFromSpec(style, num + 1);
    }
  }

  /**
   * The heading level is between 1 and 6: the smallest level whose digit occurs
   * in the style name, or 1 when no digit from 1 to 6 occurs.
   */
  lemma StyleLevelSpec(style: string)
    ensures 1 <= StyleLevel(style) <= 6
    ensures (exists n :: 1 <= n <= 6 && HasLevelDigit(style, n)) ==>
      HasLevelDigit(style, StyleLevel(style)) &&
      forall k :: 1 <= k < StyleLevel(style) ==> !HasLevelDigit(style, k)
    ensures (forall n :: 1 <= n <= 6 ==> !HasLevelDigit(style, n)) ==> StyleLevel(style) == 1
  {
    LevelFromSpec(style, 1);
  }

  /** The level search loop of `paragraph_to_markdown`, which stops at the first digit found. */
  method FindHeadingLevel(style: string) returns (level: nat)
    ensures level == StyleLevel(style)
  {
    level := 1;
    for num := 1 to 7
      invariant level == 1
      invariant LevelFrom(style, num) == StyleLevel(style)
    {
      if DigitChar(num) in style {
        level := num;
        break;
      }
    }
  }

  /** `paragraph_to_markdown`: the heading check first, then bullet and numbered lists, else plain text. */
  function ParagraphMarkdown(p: Paragraph): string {
    var text := Strip(p.text);
    if text == "" then ""
    else
      var style := StyleKey(p);
      if Contains(style, "heading") then Repeat('#', StyleLevel(style)) + " " + text
      else if Contains(style, "list bullet") then "- " + text
      else if Contains(style, "list number") then "1. " + text
      else text
  }

  /** `paragraph_to_markdown`, with the level found by its search loop. */
  method ParagraphToMarkdown(p: Paragraph) returns (line: string)
    ensures line == ParagraphMarkdown(p)
  {
    var text := Strip(p.text);
    if text == "" {
      return "";
    }
    var style := Lower(p.styleName.GetOr(""));
    if Contains(style, "heading") {
      var level := FindHeadingLevel(style);
      return Repeat('#', level) + " " + text;
    }
    if Contains(style, "list bullet") {
      return "- " + text;
    }
    if Contains(style, "list number") {
      return "1. " + text;
    }
    return text;
  }

  /** The Markdown prefix a non-blank paragraph gets from its style. */
  function StylePrefix(style: string): string {
    if Contains(style, "heading") then Repeat('#', StyleLevel(style)) + " "
    else if Contains(style, "list bullet") then "- "
    else if Contains(style, "list number") then "1. "
    else ""
  }

  /**
   * A paragraph renders as `""` exactly when its text is blank; otherwise as
   * its trimmed text after the prefix its style selects.
   */
  lemma ParagraphMarkdownSpec(p: Paragraph)
    ensures ParagraphMarkdown(p) == "" <==> IsBlank(p.text)
    ensures !IsBlank(p.text) ==> ParagraphMarkdown(p) == StylePrefix(StyleKey(p)) + Strip(p.text)
  {
    StripSpec(p.text);
  }

  /** Lower-casing makes style matching case-insensitive: two names that lower-case alike render alike. */
  lemma StyleCaseInsensitive(p: Paragraph, q: Paragraph)
    requires p.text == q.text
    requires Lower(p.styleName.GetOr("")) == Lower(q.styleName.GetOr(""))
    ensures ParagraphMarkdown(p) == ParagraphMarkdown(q)
  {
  }

  /** Stripping leading `#` from a run of `#` followed by `x` leaves what `x` leaves. */
  lemma {:induction false} LStripCharRepeat(n: nat, x: string)
    ensures LStripChar(Repeat('#', n) + x, '#') == LStripChar(x, '#')
    decreases n
  {
    if n > 0 {
      var s := Repeat('#', n) + x;
      assert s[0] == '#';
      assert Repeat('#', n)[1..] == Repeat('#', n - 1);
      assert s[1..] == Repeat('#', n - 1) + x;
      assert LStripChar(s, '#') == LStripChar(s[1..], '#');
      LStripCharRepeat(n - 1, x);
    } else {
      assert Repeat('#', n) + x == x;
    }
  }

  /**
   * A rendered heading read back by the image placer's heading parser gives
   * the style's level and the paragraph's trimmed text, provided that text
   * does not itself start with `#`.
   */
  lemma HeadingRoundTrip(p: Paragraph, idx: nat)
    requires Contains(StyleKey(p), "heading")
    requires Strip(p.text) != [] && Strip(p.text)[0] != '#'
    ensures ImagePlacer.IsHeadingLine(ParagraphMarkdown(p))
    ensures ImagePlacer.HeadingAt(idx, ParagraphMarkdown(p)) ==
      ImagePlacer.Heading(idx, StyleLevel(StyleKey(p)), Strip(p.text))
  {
    var t := Strip(p.text);
    StripSpec(p.text);
    var level := StyleLevel(StyleKey(p));
    StyleLevelSpec(StyleKey(p));
    assert ParagraphMarkdown(p) == Repeat('#', level) + (" " + t);
    HeadingLineParse(level, t);
  }

  /** A heading line of `level` hashes, a space and `text` parses back to `level` and `text` when `text` is trimmed and does not start with `#`. */
  lemma HeadingLineParse(level: nat, t: string)
    requires level >= 1 && t != [] && t[0] != '#' && IsTrimmed(t)
    ensures var r := Repeat('#', level) + (" " + t);
      ImagePlacer.IsHeadingLine(r) && ImagePlacer.HeadingAt(0, r).level == level &&
      ImagePlacer.HeadingAt(0, r).text == t
  {
    var r := Repeat('#', level) + (" " + t);
    assert r[0] == '#';
    assert LStrip(r) == r;
    assert r[..1] == "#";
    LStripCharRepeat(level, " " + t);
    assert LStripChar(" " + t, '#') == " " + t;
    assert LStrip(" " + t) == LStrip(t);
    assert LStrip(t) == t;
    StripSpec(t);
    assert Strip(" " + t) == t;
  }

  // ---------------------------------------------------------------- tables

  /** A cell's text with line breaks turned into spaces, then trimmed. */
  function CleanCell(cell: string): string {
    Strip(ReplaceChar(cell, '\n', ' '))
  }

  /** A cleaned cell is one line: it holds no newline, and no `|` unless the cell had one. */
  lemma CleanCellSpec(cell: string)
    ensures '\n' !in CleanCell(cell) && IsTrimmed(CleanCell(cell))
    ensures '|' !in cell ==> '|' !in CleanCell(cell)
  {
    var s := ReplaceChar(cell, '\n', ' ');
    StripSpec(s);
    assert '\n' !in s;
    if '|' !in cell {
      assert '|' !in s;
    }
  }

  /** The cleaned cells of a row. */
  function CleanCells(cells: seq<string>): (r: seq<string>)
    ensures |r| == |cells| && forall i :: 0 <= i < |cells| ==> r[i] == CleanCell(cells[i])
  {
    seq(|cells|, i requires 0 <= i < |cells| => CleanCell(cells[i]))
  }

  /** A table row: the cells between pipes, each pipe padded by spaces. */
  function RowLine(cells: seq<string>): string {
    "| " + Join(" | ", CleanCells(cells)) + " |"
  }

  /** The separator line: a pipe, then one dashed segment per column. */
  function Separator(numCols: nat): string {
    if numCols == 0 then "|" else Separator(numCols - 1) + " --- |"
  }

  /** The column count read off the header: its pipes, less one. */
  function ColumnCount(header: string): int {
    CountChar(header, '|') - 1
  }

  /** Joining parts free of `c` with `" | "` puts one `|` between each pair. */
  lemma {:induction false} JoinPipes(parts: seq<string>)
    requires forall i :: 0 <= i < |parts| ==> '|' !in parts[i]
    ensures CountChar(Join(" | ", parts), '|') == if parts == [] then 0 else |parts| - 1
    decreases |parts|
  {
    if |parts| == 1 {
      CountCharAbsent(parts[0], '|');
    } else if |parts| > 1 {
      var pre := parts[..|parts| - 1];
      JoinPipes(pre);
      CountCharConcat(Join(" | ", pre) + " | ", parts[|parts| - 1], '|');
      CountCharConcat(Join(" | ", pre), " | ", '|');
      CountCharOne(" ", " ", '|');
      assert " " + ['|'] + " " == " | ";
      CountCharAbsent(parts[|parts| - 1], '|');
    }
  }

  /** A row line has at least the two outer pipes, so the column count is at least 1. */
  lemma RowLinePipes(cells: seq<string>)
    ensures CountChar(RowLine(cells), '|') >= 2
    ensures (forall i :: 0 <= i < |cells| ==> '|' !in cells[i]) ==>
      CountChar(RowLine(cells), '|') == if cells == [] then 2 else |cells| + 1
  {
    var j := Join(" | ", CleanCells(cells));
    CountCharConcat("| " + j, " |", '|');
    CountCharConcat("| ", j, '|');
    if forall i :: 0 <= i < |cells| ==> '|' !in cells[i] {
      forall i | 0 <= i < |cells| ensures '|' !in CleanCells(cells)[i] {
        CleanCellSpec(cells[i]);
      }
      JoinPipes(CleanCells(cells));
    }
  }

  /**
   * The separator under a header has one `---` segment per column: as many
   * as the header row has cells when none of them holds a `|`, and one for a
   * row without cells.
   */
  lemma SeparatorWidth(cells: seq<string>)
    requires forall i :: 0 <= i < |cells| ==> '|' !in cells[i]
    ensures ColumnCount(RowLine(cells)) == if cells == [] then 1 else |cells|
  {
    RowLinePipes(cells);
  }

  /** The separator has `numCols` segments, each ` --- |`, after a leading `|`. */
  lemma {:induction false} SeparatorSpec(numCols: nat)
    ensures |Separator(numCols)| == 1 + 6 * numCols
    ensures CountChar(Separator(numCols), '|') == numCols + 1
    ensures '\n' !in Separator(numCols)
  {
    if numCols > 0 {
      SeparatorSpec(numCols - 1);
      CountCharConcat(Separator(numCols - 1), " --- |", '|');
      CountCharOne(" --- ", "", '|');
      assert " --- " + ['|'] + "" == " --- |";
    }
  }

  /** `rows_text`: one line per row. */
  function RowLines(rows: seq<seq<string>>): (r: seq<string>)
    ensures |r| == |rows| && forall i :: 0 <= i < |rows| ==> r[i] == RowLine(rows[i])
  {
    seq(|rows|, i requires 0 <= i < |rows| => RowLine(rows[i]))
  }

  /** `table_to_markdown`: header, separator, then the other rows, one per line; `""` for no rows. */
  function TableMarkdown(rows: seq<seq<string>>): string {
    if rows == [] then ""
    else
      var header := RowLine(rows[0]);
      RowLinePipes(rows[0]);
      var separator := Separator(ColumnCount(header));
      if |rows| == 1 then header + "\n" + separator
      else header + "\n" + separator + "\n" + Join("\n", RowLines(rows)[1..])
  }

  /** `table_to_markdown`: the row loop appending to `rows_text`, then the header and separator. */
  method TableToMarkdown(rows: seq<seq<string>>) returns (md: string)
    ensures md == TableMarkdown(rows)
  {
    var rowsText: seq<string> := [];
    for i := 0 to |rows|
      invariant rowsText == RowLines(rows[..i])
    {
      var cells := CleanCells(rows[i]);
      rowsText := rowsText + ["| " + Join(" | ", cells) + " |"];
    }
    assert rows[..|rows|] == rows;
    if rowsText == [] {
      return "";
    }
    var header := rowsText[0];
    RowLinePipes(rows[0]);
    var numCols := CountChar(header, '|') - 1;
    var separator := Separator(numCols);
    if |rowsText| == 1 {
      return header + "\n" + separator;
    }
    return header + "\n" + separator + "\n" + Join("\n", rowsText[1..]);
  }

  /** A row line is a single line. */
  lemma RowLineOneLine(cells: seq<string>)
    ensures '\n' !in RowLine(cells)
  {
    var parts := CleanCells(cells);
    forall i | 0 <= i < |parts| ensures '\n' !in parts[i] {
      CleanCellSpec(cells[i]);
    }
    JoinFree(" | ", parts, '\n');
  }

  /** A join of parts and a separator free of `c` is free of `c`. */
  lemma {:induction false} JoinFree(sep: string, parts: seq<string>, c: char)
    requires c !in sep && forall i :: 0 <= i < |parts| ==> c !in parts[i]
    ensures c !in Join(sep, parts)
    decreases |parts|
  {
    if |parts| > 1 {
      JoinFree(sep, parts[..|parts| - 1], c);
    }
  }

  /**
   * Read back line by line, a rendered table is its header row, the
   * separator and then every other row, in order; no cell spills onto a
   * line of its own.
   */
  lemma TableLines(rows: seq<seq<string>>)
    requires rows != []
    ensures Split(TableMarkdown(rows), '\n') ==
      [RowLine(rows[0]), Separator(ColumnCount(RowLine(rows[0])))] + RowLines(rows)[1..]
  {
    var header := RowLine(rows[0]);
    RowLinePipes(rows[0]);
    var separator := Separator(ColumnCount(header));
    var lines := [header, separator] + RowLines(rows)[1..];
    RowLineOneLine(rows[0]);
    SeparatorSpec(ColumnCount(header));
    forall i | 0 <= i < |lines| ensures '\n' !in lines[i] {
      if i >= 2 {
        RowLineOneLine(rows[i - 1]);
      }
    }
    JoinLines(header, separator, RowLines(rows)[1..]);
    SplitJoin(lines, '\n');
  }

  /** The table text is the newline join of its lines. */
  lemma JoinLines(header: string, separator: string, rest: seq<string>)
    ensures Join("\n", [header, separator] + rest) ==
      if rest == [] then header + "\n" + separator
      else header + "\n" + separator + "\n" + Join("\n", rest)
  {
    var two := [header, separator];
    assert two[..1] == [header];
    if rest == [] {
      assert two + rest == two;
    } else {
      JoinAppend("\n", two, rest);
    }
  }

  // ---------------------------------------------------------------- whole document

  /** The Markdown a block renders to. */
  function BlockText(b: Block): string {
    match b
    case Para(p) => ParagraphMarkdown(p)
    case Table(rows) => TableMarkdown(rows)
  }

  /** The rendered blocks, in document order. */
  function BlockTexts(blocks: seq<Block>): (r: seq<string>)
    ensures |r| == |blocks| && forall i :: 0 <= i < |blocks| ==> r[i] == BlockText(blocks[i])
  {
    seq(|blocks|, i requires 0 <= i < |blocks| => BlockText(blocks[i]))
  }

  /** Each text followed by an empty line. */
  function Spaced(texts: seq<string>): seq<string> {
    if texts == [] then [] else Spaced(texts[..|texts| - 1]) + [texts[|texts| - 1], ""]
  }

  /** `md_lines`: each block's text followed by an empty line. */
  function BlockLines(blocks: seq<Block>): seq<string> {
    Spaced(BlockTexts(blocks))
  }

  /** `convert_docx_bytes_to_markdown`: the lines joined, trimmed, and ended with one newline. */
  function ConvertedMarkdown(blocks: seq<Block>): string {
    Strip(Join("\n", BlockLines(blocks))) + "\n"
  }

  /** `convert_docx_bytes_to_markdown`: render each block, append it and a blank line, then join. */
  method ConvertToMarkdown(blocks: seq<Block>) returns (md: string)
    ensures md == ConvertedMarkdown(blocks)
  {
    var mdLines: seq<string> := [];
    for i := 0 to |blocks|
      invariant mdLines == Spaced(BlockTexts(blocks)[..i])
    {
      var line: string;
      match blocks[i] {
        case Para(p) =>
          line := ParagraphToMarkdown(p);
        case Table(rows) =>
          line := TableToMarkdown(rows);
      }
      assert BlockTexts(blocks)[..i + 1][..i] == BlockTexts(blocks)[..i];
      mdLines := mdLines + [line, ""];
    }
    assert BlockTexts(blocks)[..|blocks|] == BlockTexts(blocks);
    md := Strip(Join("\n", mdLines)) + "\n";
  }

  /** Every text is followed by an empty line, and nothing else is added. */
  lemma {:induction false} SpacedSpec(texts: seq<string>)
    ensures |Spaced(texts)| == 2 * |texts|
    ensures forall i :: 0 <= i < |texts| ==> Spaced(texts)[2 * i] == texts[i] && Spaced(texts)[2 * i + 1] == ""
    decreases |texts|
  {
    if texts != [] {
      var n := |texts| - 1;
      SpacedSpec(texts[..n]);
    }
  }

  /** Every block contributes its text and then an empty separator line. */
  lemma BlockLinesSpec(blocks: seq<Block>)
    ensures |BlockLines(blocks)| == 2 * |blocks|
    ensures forall i :: 0 <= i < |blocks| ==>
      BlockLines(blocks)[2 * i] == BlockText(blocks[i]) && BlockLines(blocks)[2 * i + 1] == ""
  {
    SpacedSpec(BlockTexts(blocks));
  }

  /**
   * The converted text has no whitespace at its start, ends with exactly one
   * newline, and is that single newline only when every block renders blank.
   */
  lemma ConvertedShape(blocks: seq<Block>)
    ensures var md := ConvertedMarkdown(blocks);
      |md| >= 1 && md[|md| - 1] == '\n' &&
      (md == "\n" || (!IsSpace(md[0]) && !IsSpace(md[|md| - 2])))
    ensures ConvertedMarkdown(blocks) == "\n" <==> IsBlank(Join("\n", BlockLines(blocks)))
  {
    var j := Join("\n", BlockLines(blocks));
    StripSpec(j);
    var t := Strip(j);
    var md := t + "\n";
    if t != [] {
      assert md[0] == t[0] && md[|md| - 2] == t[|t| - 1];
    }
  }

  // ---------------------------------------------------------------- images

  /** An image read from the archive, under its new name. The bytes are identified by the entry they were read from. */
  datatype ExtractedImage = ExtractedImage(name: string, entry: string)

  /** The image extensions kept, lower-cased. */
  const ImageExtensions: seq<string> := [".png", ".jpg", ".jpeg", ".gif"]

  /** The entry lies under the archive's media folder. */
  predicate IsMediaEntry(entry: string) {
    StartsWith(entry, "word/media/")
  }

  /** The entry's extension, lower-cased. */
  function LowerExtension(entry: string): string {
    Lower(Extension(entry))
  }

  /** The entry's extension, lower-cased, is one of the image extensions. */
  predicate HasImageExtension(entry: string) {
    LowerExtension(entry) in ImageExtensions
  }

  /** An extension that starts with its dot. */
  predicate Dotted(ext: string) {
    |ext| >= 1 && ext[0] == '.'
  }

  /** Every image extension starts with its dot. */
  lemma ImageExtensionsDotted(ext: string)
    requires ext in ImageExtensions
    ensures Dotted(ext)
  {
  }

  /** An extracted image's name: base name, underscore, number, extension. */
  function ImageName(baseName: string, idx: nat, ext: string): string {
    baseName + "_" + NatToString(idx) + ext
  }

  /** The entries that are extracted, in archive order. */
  function KeptMedia(entries: seq<string>): seq<string> {
    Filter(HasImageExtension, Filter(IsMediaEntry, entries))
  }

  /** The name `extract_images_from_docx_bytes` gives the entry extracted under number `idx`. */
  function NameIn(baseName: string): (nat, string) -> string {
    (idx: nat, entry: string) => ImageName(baseName, idx, LowerExtension(entry))
  }

  /**
   * The kept entries numbered from 1 in order: the `k`-th is named after the
   * base name, the number `k + 1` and its own lower-cased extension.
   */
  function Numbered(baseName: string, kept: seq<string>): (r: seq<ExtractedImage>)
    ensures |r| == |kept|
    ensures forall k :: 0 <= k < |kept| ==>
      r[k] == ExtractedImage(ImageName(baseName, k + 1, LowerExtension(kept[k])), kept[k])
  {
    NumberedBySpec(NameIn(baseName), kept);
    NumberedBy(NameIn(baseName), kept)
  }

  /** The kept entries numbered from 1, each named by `name`. */
  function NumberedBy(name: (nat, string) -> string, kept: seq<string>): (r: seq<ExtractedImage>)
    ensures |r| == |kept|
  {
    if kept == [] then []
    else
      var n := |kept|;
      NumberedBy(name, kept[..n - 1]) + [ExtractedImage(name(n, kept[n - 1]), kept[n - 1])]
  }

  /** The `k`-th kept entry is extracted under number `k + 1`. */
  lemma {:induction false} NumberedBySpec(name: (nat, string) -> string, kept: seq<string>)
    ensures var r := NumberedBy(name, kept);
      forall k :: 0 <= k < |kept| ==> r[k] == ExtractedImage(name(k + 1, kept[k]), kept[k])
  {
    if kept != [] {
      var n := |kept|;
      NumberedBySpec(name, kept[..n - 1]);
    }
  }

  /** The `k`-th kept entry, on its own. */
  lemma NumberedByAt(name: (nat, string) -> string, kept: seq<string>, k: nat)
    requires k < |kept|
    ensures NumberedBy(name, kept)[k] == ExtractedImage(name(k + 1, kept[k]), kept[k])
  {
    NumberedBySpec(name, kept);
  }

  /** `extract_images_from_docx_bytes` over the archive's entry names. */
  function ExtractedImages(entries: seq<string>, baseName: string): seq<ExtractedImage> {
    Numbered(baseName, KeptMedia(entries))
  }

  /** `extract_images_from_docx_bytes`: the media loop with its `idx` counter. */
  method ExtractImages(entries: seq<string>, baseName: string) returns (images: seq<ExtractedImage>)
    ensures images == ExtractedImages(entries, baseName)
  {
    images := [];
    var mediaFiles := Filter(IsMediaEntry, entries);
    if |mediaFiles| == 0 {
      return;
    }
    var idx := 1;
    for i := 0 to |mediaFiles|
      invariant images == Numbered(baseName, Filter(HasImageExtension, mediaFiles[..i]))
      invariant idx == |images| + 1
    {
      var media := mediaFiles[i];
      ghost var kept := Filter(HasImageExtension, mediaFiles[..i]);
      FilterTake(HasImageExtension, mediaFiles, i);
      var ext := LowerExtension(media);
      if ext !in ImageExtensions {
        assert Filter(HasImageExtension, mediaFiles[..i + 1]) == kept;
        continue;
      }
      assert Filter(HasImageExtension, mediaFiles[..i + 1]) == kept + [media];
      var imgName := ImageName(baseName, idx, ext);
      ghost var name := NameIn(baseName);
      assert name(|kept| + 1, media) == imgName;
      NumberedSnoc(name, kept, media);
      images := images + [ExtractedImage(imgName, media)];
      idx := idx + 1;
    }
    assert mediaFiles[..|mediaFiles|] == mediaFiles;
  }

  /** One more kept entry gets the next number. */
  lemma NumberedSnoc(name: (nat, string) -> string, kept: seq<string>, media: string)
    ensures NumberedBy(name, kept + [media]) ==
      NumberedBy(name, kept) + [ExtractedImage(name(|kept| + 1, media), media)]
  {
    assert (kept + [media])[..|kept|] == kept;
  }

  /** Exactly the media entries with an image extension are extracted. */
  lemma KeptMediaMembers(entries: seq<string>)
    ensures forall e :: e in KeptMedia(entries) <==> e in entries && IsMediaEntry(e) && HasImageExtension(e)
  {
    FilterMembers(IsMediaEntry, entries);
    FilterMembers(HasImageExtension, Filter(IsMediaEntry, entries));
  }

  /** Every kept image name ends with its lower-cased extension, which starts with a dot. */
  lemma ImageNameParts(baseName: string, k: nat, ext: string)
    requires Dotted(ext)
    ensures var name := ImageName(baseName, k, ext);
      StartsWith(name, baseName + "_") &&
      TakeUntil(name[|baseName| + 1..], '.') == NatToString(k)
  {
    var name := ImageName(baseName, k, ext);
    var digits := NatToString(k);
    assert name[..|baseName| + 1] == baseName + "_";
    assert name[|baseName| + 1..] == digits + ext;
    assert '.' !in digits by {
      forall i | 0 <= i < |digits| ensures digits[i] != '.' { }
    }
    TakeUntilPrefix(digits, ext, '.');
  }

  /** Different numbers give different image names, whatever the two extensions. */
  lemma ImageNamesDiffer(baseName: string, i: nat, j: nat, ei: string, ej: string)
    requires Dotted(ei) && Dotted(ej) && i != j
    ensures ImageName(baseName, i, ei) != ImageName(baseName, j, ej)
  {
    ImageNameParts(baseName, i, ei);
    ImageNameParts(baseName, j, ej);
    if ImageName(baseName, i, ei) == ImageName(baseName, j, ej) {
      NatToStringInjective(i, j);
    }
  }

  /** Every kept entry's extension starts with its dot. */
  lemma KeptExtensions(entries: seq<string>)
    ensures var kept := KeptMedia(entries);
      forall k :: 0 <= k < |kept| ==> Dotted(LowerExtension(kept[k]))
  {
    var kept := KeptMedia(entries);
    FilterMembers(HasImageExtension, Filter(IsMediaEntry, entries));
    forall k | 0 <= k < |kept| ensures Dotted(LowerExtension(kept[k])) {
      assert kept[k] in kept;
      ImageExtensionsDotted(LowerExtension(kept[k]));
    }
  }

  /** The extracted images get pairwise different names. */
  lemma ExtractedNamesDistinct(entries: seq<string>, baseName: string)
    ensures var images := ExtractedImages(entries, baseName);
      forall i, j :: 0 <= i < j < |images| ==> images[i].name != images[j].name
  {
    var kept := KeptMedia(entries);
    var images := ExtractedImages(entries, baseName);
    KeptExtensions(entries);
    forall i, j | 0 <= i < j < |images| ensures images[i].name != images[j].name {
      NumberedNamesDiffer(baseName, kept, i, j);
    }
  }

  /** Two kept entries with dotted extensions are extracted under different names. */
  lemma NumberedNamesDiffer(baseName: string, kept: seq<string>, i: nat, j: nat)
    requires i < j < |kept| && Dotted(LowerExtension(kept[i])) && Dotted(LowerExtension(kept[j]))
    ensures Numbered(baseName, kept)[i].name != Numbered(baseName, kept)[j].name
  {
    var name := NameIn(baseName);
    assert name(i + 1, kept[i]) != name(j + 1, kept[j]) by {
      ImageNamesDiffer(baseName, i + 1, j + 1, LowerExtension(kept[i]), LowerExtension(kept[j]));
    }
    NumberedByAt(name, kept, i);
    NumberedByAt(name, kept, j);
  }

  // ---------------------------------------------------------------- file names

  /** The upload's name without extension, spaces turned into underscores, lower-cased. */
  function CleanBaseName(fileName: string): (r: string)
    ensures |r| == |Stem(fileName)|
    ensures forall i :: 0 <= i < |r| ==> r[i] != ' ' && !IsUpper(r[i])
    ensures forall i :: 0 <= i < |r| ==> r[i] == LowerChar(if Stem(fileName)[i] == ' ' then '_' else Stem(fileName)[i])
  {
    Lower(ReplaceChar(Stem(fileName), ' ', '_'))
  }

  /** The Markdown download's name. */
  function MarkdownFileName(fileName: string): (r: string)
    ensures EndsWith(r, ".md") && r[..|r| - 3] == CleanBaseName(fileName)
  {
    var r := CleanBaseName(fileName) + ".md";
    assert r[..|r| - 3] == CleanBaseName(fileName);
    r
  }

  /** The image archive download's name. */
  function ImagesZipName(fileName: string): (r: string)
    ensures EndsWith(r, "_images.zip") && r[..|r| - 11] == CleanBaseName(fileName)
  {
    var r := CleanBaseName(fileName) + "_images.zip";
    assert r[..|r| - 11] == CleanBaseName(fileName);
    r
  }
}

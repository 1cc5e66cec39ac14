/**
 * pages/Image_Placer.py: the headings of an uploaded Markdown file, inserting
 * an image line below a chosen heading, the image names found in an uploaded
 * archive, and the names built from them.
 */
module ImagePlacer {
  import opened Results
  import opened Text
  import opened Seqs
  import opened Paths

  /** One detected heading, the tuple `(line_index, heading_level, heading_text)`. */
  datatype Heading = Heading(line: nat, level: nat, text: string)

  /** A line is a heading when its left-trimmed text starts with `#`. */
  predicate IsHeadingLine(line: string) {
    StartsWith(LStrip(line), "#")
  }

  /** The heading found on line `idx`: `(idx, level, text)` as `parse_headings` computes them. */
  function HeadingAt(idx: nat, line: string): (h: Heading)
    requires IsHeadingLine(line)
    ensures h.line == idx
  {
    var stripped := LStrip(line);
    var rest := LStripChar(stripped, '#');
    Heading(idx, |stripped| - |rest|, Strip(rest))
  }

  /**
   * The level of a heading line is the number of leading `#` after
   * left-trimming (at least one, no upper bound), its text the rest of the
   * line, trimmed.
   */
  lemma HeadingAtSpec(idx: nat, line: string)
    requires IsHeadingLine(line)
    ensures var h, stripped := HeadingAt(idx, line), LStrip(line);
      1 <= h.level <= |stripped| &&
      (forall i :: 0 <= i < h.level ==> stripped[i] == '#') &&
      (h.level == |stripped| || stripped[h.level] != '#') &&
      h.text == Strip(stripped[h.level..])
  {
    var stripped := LStrip(line);
    var rest := LStripChar(stripped, '#');
    LStripCharSpec(stripped, '#');
    assert stripped[0] == '#';
    assert rest == LStripChar(stripped[1..], '#');
  }

  /** The headings of `lines`, in line order: what `parse_headings` returns. */
  function Headings(lines: seq<string>): seq<Heading> {
    HeadingsUpTo(lines, |lines|)
  }

  /** The headings among the first `n` lines. */
  function HeadingsUpTo(lines: seq<string>, n: nat): seq<Heading>
    requires n <= |lines|
  {
    Scan(LineHeading, lines, n)
  }

  /** The heading contributed by line `idx`, if any. */
  function LineHeading(idx: nat, line: string): seq<Heading> {
    if IsHeadingLine(line) then [HeadingAt(idx, line)] else []
  }

  /** `parse_headings`: scan the lines, collecting each heading line. */
  method ParseHeadings(lines: seq<string>) returns (headings: seq<Heading>)
    ensures headings == Headings(lines)
  {
    headings := [];
    for idx := 0 to |lines|
      invariant headings == HeadingsUpTo(lines, idx)
    {
      var line := lines[idx];
      var stripped := LStrip(line);
      if StartsWith(stripped, "#") {
        LStripCharSpec(stripped, '#');
        var level := |stripped| - |LStripChar(stripped, '#')|;
        var text := Strip(stripped[level..]);
        headings := headings + [Heading(idx, level, text)];
      }
    }
  }

  // ---------------------------------------------------------------------------
  // The line scan, for any rule `at` giving the headings one line contributes
  // ---------------------------------------------------------------------------

  /** What scanning the first `n` elements of `xs` collects. */
  function Scan(at: (nat, string) -> seq<Heading>, xs: seq<string>, n: nat): seq<Heading>
    requires n <= |xs|
  {
    if n == 0 then [] else Scan(at, xs, n - 1) + at(n - 1, xs[n - 1])
  }

  /** Each element contributes at most one heading, which records the element's index. */
  ghost predicate AtMostOne(at: (nat, string) -> seq<Heading>) {
    forall i, x :: |at(i, x)| <= 1 && (at(i, x) != [] ==> at(i, x)[0].line == i)
  }

  /** Every collected heading comes from one of the first `n` elements. */
  predicate ScanSound(at: (nat, string) -> seq<Heading>, xs: seq<string>, n: nat, hs: seq<Heading>)
    requires n <= |xs|
  {
    forall k :: 0 <= k < |hs| ==> hs[k].line < n && at(hs[k].line, xs[hs[k].line]) == [hs[k]]
  }

  /** The entries of `hs` are in ascending line order, one per line. */
  predicate Ascending(hs: seq<Heading>) {
    forall j, k :: 0 <= j < k < |hs| ==> hs[j].line < hs[k].line
  }

  /** Every element among the first `n` that contributes a heading has one collected. */
  predicate ScanComplete(at: (nat, string) -> seq<Heading>, xs: seq<string>, n: nat, hs: seq<Heading>)
    requires n <= |xs|
  {
    forall i :: 0 <= i < n && at(i, xs[i]) != [] ==> exists k :: 0 <= k < |hs| && hs[k].line == i
  }

  lemma ScanSoundStep(at: (nat, string) -> seq<Heading>, xs: seq<string>, n: nat)
    requires n < |xs| && AtMostOne(at) && ScanSound(at, xs, n, Scan(at, xs, n))
    ensures ScanSound(at, xs, n + 1, Scan(at, xs, n + 1))
  {
    var hs := Scan(at, xs, n);
    var hs' := Scan(at, xs, n + 1);
    assert hs' == hs + at(n, xs[n]);
    forall k | 0 <= k < |hs'|
      ensures hs'[k].line < n + 1 && at(hs'[k].line, xs[hs'[k].line]) == [hs'[k]]
    {
      if k < |hs| {
        assert hs'[k] == hs[k];
      } else {
        assert |at(n, xs[n])| == 1 && hs'[k] == at(n, xs[n])[0];
      }
    }
  }

  lemma AscendingStep(at: (nat, string) -> seq<Heading>, xs: seq<string>, n: nat)
    requires n < |xs| && AtMostOne(at) && ScanSound(at, xs, n, Scan(at, xs, n))
    requires Ascending(Scan(at, xs, n))
    ensures Ascending(Scan(at, xs, n + 1))
  {
    var hs := Scan(at, xs, n);
    var hs' := Scan(at, xs, n + 1);
    assert hs' == hs + at(n, xs[n]);
    forall j, k | 0 <= j < k < |hs'|
      ensures hs'[j].line < hs'[k].line
    {
      assert hs'[j] == hs[j];
      if k == |hs| {
        assert hs[j].line < n && hs'[k] == at(n, xs[n])[0];
      } else {
        assert hs'[k] == hs[k];
      }
    }
  }

  lemma ScanCompleteStep(at: (nat, string) -> seq<Heading>, xs: seq<string>, n: nat)
    requires n < |xs| && AtMostOne(at) && ScanComplete(at, xs, n, Scan(at, xs, n))
    ensures ScanComplete(at, xs, n + 1, Scan(at, xs, n + 1))
  {
    var hs := Scan(at, xs, n);
    var hs' := Scan(at, xs, n + 1);
    assert hs' == hs + at(n, xs[n]);
    forall i | 0 <= i < n + 1 && at(i, xs[i]) != []
      ensures exists k :: 0 <= k < |hs'| && hs'[k].line == i
    {
      if i == n {
        assert hs'[|hs|] == at(n, xs[n])[0];
      } else {
        var k :| 0 <= k < |hs| && hs[k].line == i;
        assert hs'[k].line == i;
      }
    }
  }

  lemma {:induction false} ScanSoundUpTo(at: (nat, string) -> seq<Heading>, xs: seq<string>, n: nat)
    requires n <= |xs| && AtMostOne(at)
    ensures ScanSound(at, xs, n, Scan(at, xs, n))
  {
    if n > 0 {
      ScanSoundUpTo(at, xs, n - 1);
      ScanSoundStep(at, xs, n - 1);
    }
  }

  lemma {:induction false} AscendingUpTo(at: (nat, string) -> seq<Heading>, xs: seq<string>, n: nat)
    requires n <= |xs| && AtMostOne(at)
    ensures Ascending(Scan(at, xs, n))
  {
    if n > 0 {
      AscendingUpTo(at, xs, n - 1);
      ScanSoundUpTo(at, xs, n - 1);
      AscendingStep(at, xs, n - 1);
    }
  }

  lemma {:induction false} ScanCompleteUpTo(at: (nat, string) -> seq<Heading>, xs: seq<string>, n: nat)
    requires n <= |xs| && AtMostOne(at)
    ensures ScanComplete(at, xs, n, Scan(at, xs, n))
  {
    if n > 0 {
      ScanCompleteUpTo(at, xs, n - 1);
      ScanCompleteStep(at, xs, n - 1);
    }
  }

  /** The scan collects exactly the contributing elements' headings, in ascending order. */
  lemma ScanSpec(at: (nat, string) -> seq<Heading>, xs: seq<string>, n: nat)
    requires n <= |xs| && AtMostOne(at)
    ensures ScanSound(at, xs, n, Scan(at, xs, n))
    ensures Ascending(Scan(at, xs, n))
    ensures ScanComplete(at, xs, n, Scan(at, xs, n))
  {
    ScanSoundUpTo(at, xs, n);
    AscendingUpTo(at, xs, n);
    ScanCompleteUpTo(at, xs, n);
  }

  /** Headings moved down by `d` lines. */
  function Shift(hs: seq<Heading>, d: nat): (r: seq<Heading>)
    ensures |r| == |hs|
    ensures forall k :: 0 <= k < |hs| ==> r[k] == hs[k].(line := hs[k].line + d)
  {
    seq(|hs|, k requires 0 <= k < |hs| => hs[k].(line := hs[k].line + d))
  }

  /** Shifting a last block onto an already shifted list. */
  lemma ShiftSnoc(hs: seq<Heading>, gs: seq<Heading>, ls: seq<Heading>, d: nat)
    ensures (hs + Shift(gs, d)) + Shift(ls, d) == hs + Shift(gs + ls, d)
  {
    assert Shift(gs + ls, d) == Shift(gs, d) + Shift(ls, d);
  }

  /** Element `i` moved down by `d` contributes what it did, moved down by `d`. */
  ghost predicate ShiftsWith(at: (nat, string) -> seq<Heading>, d: nat) {
    forall i: nat, x :: Shift(at(i, x), d) == at(i + d, x)
  }

  /** Sequences that agree on their first `n` elements scan alike there. */
  lemma {:induction false} ScanAgree(at: (nat, string) -> seq<Heading>, x: seq<string>, y: seq<string>, n: nat)
    requires n <= |x| && n <= |y|
    requires forall i :: 0 <= i < n ==> x[i] == y[i]
    ensures Scan(at, x, n) == Scan(at, y, n)
  {
    if n > 0 {
      ScanAgree(at, x, y, n - 1);
    }
  }

  /** Scanning `a` and then the first `k` elements of `b`. */
  lemma {:induction false} ScanConcatUpTo(at: (nat, string) -> seq<Heading>, a: seq<string>, b: seq<string>, k: nat)
    requires k <= |b| && ShiftsWith(at, |a|)
    ensures Scan(at, a + b, |a| + k) == Scan(at, a, |a|) + Shift(Scan(at, b, k), |a|)
  {
    if k == 0 {
      ScanAgree(at, a + b, a, |a|);
    } else {
      ScanConcatUpTo(at, a, b, k - 1);
      var x := b[k - 1];
      assert (a + b)[|a| + k - 1] == x;
      assert Shift(at(k - 1, x), |a|) == at(k - 1 + |a|, x);
      ShiftSnoc(Scan(at, a, |a|), Scan(at, b, k - 1), at(k - 1, x), |a|);
    }
  }

  // ---------------------------------------------------------------------------
  // The headings of Markdown lines
  // ---------------------------------------------------------------------------

  /** Every entry of `hs` is a heading line among the first `n`, with the level and text that line gives. */
  predicate HeadingsSound(lines: seq<string>, n: nat, hs: seq<Heading>)
    requires n <= |lines|
  {
    forall k :: 0 <= k < |hs| ==>
      hs[k].line < n && IsHeadingLine(lines[hs[k].line]) && hs[k] == HeadingAt(hs[k].line, lines[hs[k].line])
  }

  /** Every heading line among the first `n` has an entry in `hs`. */
  predicate HeadingsComplete(lines: seq<string>, n: nat, hs: seq<Heading>)
    requires n <= |lines|
  {
    forall i :: 0 <= i < n && IsHeadingLine(lines[i]) ==> exists k :: 0 <= k < |hs| && hs[k].line == i
  }

  /**
   * `hs` lists exactly the heading lines among the first `n` lines, one entry
   * per line, in ascending line order, each with the level and text that line
   * gives.
   */
  predicate HeadingsOfUpTo(lines: seq<string>, n: nat, hs: seq<Heading>)
    requires n <= |lines|
  {
    HeadingsSound(lines, n, hs) && Ascending(hs) && HeadingsComplete(lines, n, hs)
  }

  /** `hs` lists exactly the heading lines of `lines`. */
  predicate HeadingsOf(lines: seq<string>, hs: seq<Heading>) {
    HeadingsOfUpTo(lines, |lines|, hs)
  }

  /** A line contributes at most its own heading. */
  lemma LineHeadingAtMostOne()
    ensures AtMostOne(LineHeading)
  {
  }

  /** `HeadingsUpTo` lists exactly the heading lines among the first `n`, in line order. */
  lemma HeadingsUpToSpec(lines: seq<string>, n: nat)
    requires n <= |lines|
    ensures HeadingsOfUpTo(lines, n, HeadingsUpTo(lines, n))
  {
    var hs := HeadingsUpTo(lines, n);
    LineHeadingAtMostOne();
    ScanSpec(LineHeading, lines, n);
    forall k | 0 <= k < |hs|
      ensures hs[k].line < n && IsHeadingLine(lines[hs[k].line]) && hs[k] == HeadingAt(hs[k].line, lines[hs[k].line])
    {
      assert LineHeading(hs[k].line, lines[hs[k].line]) == [hs[k]];
    }
    forall i | 0 <= i < n && IsHeadingLine(lines[i])
      ensures exists k :: 0 <= k < |hs| && hs[k].line == i
    {
      assert LineHeading(i, lines[i]) != [];
    }
  }

  /** `Headings` lists exactly the heading lines, in line order. */
  lemma HeadingsSpec(lines: seq<string>)
    ensures HeadingsOf(lines, Headings(lines))
  {
    HeadingsUpToSpec(lines, |lines|);
  }

  /** The heading a line gives does not depend on where the line is, except for its index. */
  lemma LineHeadingShift(idx: nat, line: string, d: nat)
    ensures Shift(LineHeading(idx, line), d) == LineHeading(idx + d, line)
  {
  }

  lemma LineHeadingShifts(d: nat)
    ensures ShiftsWith(LineHeading, d)
  {
    forall i: nat, x: string
      ensures Shift(LineHeading(i, x), d) == LineHeading(i + d, x)
    {
      LineHeadingShift(i, x, d);
    }
  }

  /** The headings of two consecutive blocks of lines: the second block's move down. */
  lemma HeadingsConcat(a: seq<string>, b: seq<string>)
    ensures Headings(a + b) == Headings(a) + Shift(Headings(b), |a|)
  {
    LineHeadingShifts(|a|);
    ScanConcatUpTo(LineHeading, a, b, |b|);
  }

  /** `insert_image_after_heading`: two blank lines around the image line, right after `headingIndex`. */
  function InsertImageAfterHeading(lines: seq<string>, headingIndex: nat, imageMarkdown: string): (r: seq<string>)
    ensures |r| == |lines| + 3
    ensures var pos := InsertPosition(lines, headingIndex);
      r[pos..pos + 3] == ["", imageMarkdown, ""] && r[..pos] + r[pos + 3..] == lines
  {
    var pos := InsertPosition(lines, headingIndex);
    var r := lines[..pos] + ["", imageMarkdown, ""] + lines[pos..];
    assert r[..pos] == lines[..pos] && r[pos + 3..] == lines[pos..];
    r
  }

  /** `heading_index + 1`, clamped to the list as Python's slicing does. */
  function InsertPosition(lines: seq<string>, headingIndex: nat): (pos: nat)
    ensures pos <= |lines|
  {
    if headingIndex + 1 <= |lines| then headingIndex + 1 else |lines|
  }

  /** The Markdown image line `![caption](path)`. */
  function ImageLine(caption: string, path: string): string {
    "![" + caption + "](" + path + ")"
  }

  /** An image line is never taken for a heading. */
  lemma ImageLineIsNoHeading(caption: string, path: string)
    ensures !IsHeadingLine(ImageLine(caption, path))
  {
    var l := ImageLine(caption, path);
    assert l[0] == '!';
    assert LStrip(l) == l;
  }

  /** Every heading of `lines` is on one of its lines. */
  lemma HeadingLinesWithin(lines: seq<string>)
    ensures forall k :: 0 <= k < |Headings(lines)| ==> Headings(lines)[k].line < |lines|
  {
    HeadingsSpec(lines);
  }

  /** The blank lines and the image line around it hold no heading. */
  lemma InsertedLinesNoHeadings(imageMarkdown: string)
    requires !IsHeadingLine(imageMarkdown)
    ensures Headings(["", imageMarkdown, ""]) == []
  {
    var m := ["", imageMarkdown, ""];
    assert !IsHeadingLine("");
    assert LineHeading(0, m[0]) == [] && LineHeading(1, m[1]) == [] && LineHeading(2, m[2]) == [];
    assert Scan(LineHeading, m, 1) == [];
    assert Scan(LineHeading, m, 2) == [];
  }

  /** Lines holding no heading, put between two blocks, only move the second block's headings. */
  lemma HeadingsAroundMiddle(a: seq<string>, m: seq<string>, b: seq<string>)
    requires Headings(m) == []
    ensures Headings((a + m) + b) == Headings(a) + Shift(Headings(b), |a| + |m|)
  {
    HeadingsConcat(a + m, b);
    HeadingsConcat(a, m);
    assert Headings(a + m) == Headings(a);
  }

  /**
   * Re-parsing after an insertion finds the same headings with the same
   * levels and texts; those below the insertion point are 3 lines further down.
   */
  lemma InsertKeepsHeadings(lines: seq<string>, headingIndex: nat, imageMarkdown: string)
    requires !IsHeadingLine(imageMarkdown)
    ensures var before, after := Headings(lines), Headings(InsertImageAfterHeading(lines, headingIndex, imageMarkdown));
      |after| == |before| &&
      forall k :: 0 <= k < |before| ==>
        after[k].level == before[k].level && after[k].text == before[k].text &&
        after[k].line == before[k].line + (if before[k].line <= headingIndex then 0 else 3)
  {
    var pos := InsertPosition(lines, headingIndex);
    var a, b := lines[..pos], lines[pos..];
    var m := ["", imageMarkdown, ""];
    assert lines == a + b;
    assert InsertImageAfterHeading(lines, headingIndex, imageMarkdown) == (a + m) + b;
    InsertedLinesNoHeadings(imageMarkdown);
    HeadingsAroundMiddle(a, m, b);
    HeadingsConcat(a, b);
    HeadingLinesWithin(a);
    var ha, hb := Headings(a), Headings(b);
    var before := ha + Shift(hb, |a|);
    var after := ha + Shift(hb, |a| + 3);
    forall k | 0 <= k < |before|
      ensures after[k].level == before[k].level && after[k].text == before[k].text &&
        after[k].line == before[k].line + (if before[k].line <= headingIndex then 0 else 3)
    {
      if k < |ha| {
        assert before[k] == ha[k] && after[k] == ha[k];
      } else {
        assert pos == headingIndex + 1;
        assert before[k] == hb[k - |ha|].(line := hb[k - |ha|].line + |a|);
        assert after[k] == hb[k - |ha|].(line := hb[k - |ha|].line + |a| + 3);
      }
    }
  }

  /** The image path: the prefix without trailing slashes, a slash, then the image name. */
  function ImagePath(pathPrefix: string, name: string): (r: string)
    ensures |r| > |name| && EndsWith(r, "/" + name)
    ensures var dir := r[..|r| - |name| - 1];
      (dir == [] || dir[|dir| - 1] != '/') && StartsWith(pathPrefix, dir) &&
      forall i :: |dir| <= i < |pathPrefix| ==> pathPrefix[i] == '/'
  {
    var dir := RStripChar(pathPrefix, '/');
    RStripCharSpec(pathPrefix, '/');
    var r := dir + "/" + name;
    assert r[..|r| - |name| - 1] == dir;
    assert r[|r| - |name| - 1..] == "/" + name;
    r
  }

  /** The download name: the upload's name without extension, plus a fixed suffix. */
  function OutputName(uploadedName: string): (r: string)
    ensures EndsWith(r, "_with_images.md")
    ensures r[..|r| - |"_with_images.md"|] + Extension(uploadedName) == uploadedName
  {
    var r := Stem(uploadedName) + "_with_images.md";
    assert r[..|r| - |"_with_images.md"|] == Stem(uploadedName);
    r
  }

  /** An archive entry that is a directory ends with `/`. */
  predicate IsFileEntry(entry: string) {
    !EndsWith(entry, "/")
  }

  predicate IsNonEmpty(name: string) {
    name != ""
  }

  /** The base names of the archive entries that are not folders, in archive order. */
  function BaseNames(entries: seq<string>): (r: seq<string>)
    ensures |r| == |Filter(IsFileEntry, entries)|
    ensures forall i :: 0 <= i < |r| ==> r[i] == Basename(Filter(IsFileEntry, entries)[i])
  {
    var files := Filter(IsFileEntry, entries);
    seq(|files|, i requires 0 <= i < |files| => Basename(files[i]))
  }

  /** The non-empty base names of the archive's file entries, in archive order. */
  function ImageCandidates(entries: seq<string>): seq<string> {
    Filter(IsNonEmpty, BaseNames(entries))
  }

  /** A listed base name is the base name of some file entry. */
  lemma BaseNameFromEntry(entries: seq<string>, x: string)
    requires x in BaseNames(entries)
    ensures exists e :: e in entries && IsFileEntry(e) && Basename(e) == x
  {
    var files := Filter(IsFileEntry, entries);
    var base := BaseNames(entries);
    var i :| 0 <= i < |base| && base[i] == x;
    var e := files[i];
    assert e in files;
    FilterMembers(IsFileEntry, entries);
    assert e in entries && IsFileEntry(e) && Basename(e) == x;
  }

  /** The base name of every file entry is listed. */
  lemma EntryBaseNameListed(entries: seq<string>, e: string)
    requires e in entries && IsFileEntry(e)
    ensures Basename(e) in BaseNames(entries)
  {
    var files := Filter(IsFileEntry, entries);
    FilterMembers(IsFileEntry, entries);
    assert e in files;
    var i :| 0 <= i < |files| && files[i] == e;
    assert BaseNames(entries)[i] == Basename(e);
  }

  /** A base name is listed exactly when some file entry of the archive has it. */
  lemma BaseNamesMembers(entries: seq<string>)
    ensures forall x :: x in BaseNames(entries) <==> exists e :: e in entries && IsFileEntry(e) && Basename(e) == x
  {
    forall x | x in BaseNames(entries)
      ensures exists e :: e in entries && IsFileEntry(e) && Basename(e) == x
    {
      BaseNameFromEntry(entries, x);
    }
    forall e | e in entries && IsFileEntry(e)
      ensures Basename(e) in BaseNames(entries)
    {
      EntryBaseNameListed(entries, e);
    }
  }

  /** One more base name seen by the ZIP loop: kept when non-empty and new. */
  lemma ZipStep(names: seq<string>, name: string)
    ensures Dedup(Filter(IsNonEmpty, names + [name])) ==
      if name != "" && name !in Dedup(Filter(IsNonEmpty, names))
      then Dedup(Filter(IsNonEmpty, names)) + [name]
      else Dedup(Filter(IsNonEmpty, names))
  {
    var kept := Filter(IsNonEmpty, names);
    FilterSnoc(IsNonEmpty, names, name);
    if name != "" {
      assert IsNonEmpty(name);
      assert Filter(IsNonEmpty, names + [name]) == kept + [name];
      DedupSnoc(kept, name);
    } else {
      assert !IsNonEmpty(name);
      assert Filter(IsNonEmpty, names + [name]) == kept;
    }
  }

  /** The loop over the base names, with its `seen` set: keep each non-empty name the first time it appears. */
  method KeepFirstNonEmpty(baseNames: seq<string>) returns (imageNames: seq<string>)
    ensures imageNames == Dedup(Filter(IsNonEmpty, baseNames))
  {
    var seen: set<string> := {};
    imageNames := [];
    for i := 0 to |baseNames|
      invariant imageNames == Dedup(Filter(IsNonEmpty, baseNames[..i]))
      invariant forall x :: x in seen <==> x in imageNames
    {
      var name := baseNames[i];
      assert baseNames[..i + 1] == baseNames[..i] + [name];
      ZipStep(baseNames[..i], name);
      if name != "" && name !in seen {
        seen := seen + {name};
        imageNames := imageNames + [name];
      }
    }
    assert baseNames[..|baseNames|] == baseNames;
  }

  /** The image names read from an uploaded archive. */
  method ZipImageNames(entries: seq<string>) returns (imageNames: seq<string>)
    ensures imageNames == Dedup(ImageCandidates(entries))
  {
    imageNames := KeepFirstNonEmpty(BaseNames(entries));
  }

  /**
   * The archive's image names: no directory entries and no empty names, each
   * name once, every file's base name present, in the order of first
   * occurrence.
   */
  lemma ZipImageNamesSpec(entries: seq<string>)
    ensures NoDup(Dedup(ImageCandidates(entries)))
    ensures forall x :: x in Dedup(ImageCandidates(entries)) <==>
      x != "" && exists e :: e in entries && IsFileEntry(e) && Basename(e) == x
    ensures forall x :: x in Dedup(ImageCandidates(entries)) ==> '/' !in x
    ensures var names, kept := Dedup(ImageCandidates(entries)), ImageCandidates(entries);
      forall i, j :: 0 <= i < j < |names| ==>
        names[i] in kept && names[j] in kept && FirstIndex(kept, names[i]) < FirstIndex(kept, names[j])
  {
    var kept := ImageCandidates(entries);
    DedupSpec(kept);
    ImageCandidatesMembers(entries);
    ImageCandidatesNoSlash(entries);
  }

  /** The candidates are the non-empty base names of file entries. */
  lemma ImageCandidatesMembers(entries: seq<string>)
    ensures forall x :: x in ImageCandidates(entries) <==>
      x != "" && exists e :: e in entries && IsFileEntry(e) && Basename(e) == x
  {
    var names := BaseNames(entries);
    FilterMembers(IsNonEmpty, names);
    BaseNamesMembers(entries);
    forall x ensures x in ImageCandidates(entries) <==>
      x != "" && exists e :: e in entries && IsFileEntry(e) && Basename(e) == x
    {
      assert x in ImageCandidates(entries) <==> x in names && IsNonEmpty(x);
      assert x in names <==> exists e :: e in entries && IsFileEntry(e) && Basename(e) == x;
    }
  }

  /** No candidate holds a `/`. */
  lemma ImageCandidatesNoSlash(entries: seq<string>)
    ensures forall x :: x in ImageCandidates(entries) ==> '/' !in x
  {
    ImageCandidatesMembers(entries);
    forall x | x in ImageCandidates(entries) ensures '/' !in x {
      var e :| e in entries && IsFileEntry(e) && Basename(e) == x;
    }
  }

  /** Why the insert button refuses. */
  datatype PlaceError = NoImageSelected

  /** The insert button (lines 154-163): the new line list, or a warning without change. */
  function PlaceImage(lines: seq<string>, headings: seq<Heading>, section: nat,
                      selectedImage: Option<string>, caption: string, pathPrefix: string): (r: Result<seq<string>, PlaceError>)
    requires section < |headings|
    ensures selectedImage == None <==> r == Err(NoImageSelected)
    ensures r.Ok? ==> |r.value| == |lines| + 3
    ensures r.Ok? ==> r.value == InsertImageAfterHeading(lines, headings[section].line,
                                   ImageLine(caption, ImagePath(pathPrefix, selectedImage.value)))
  {
    match selectedImage
    case None => Err(NoImageSelected)
    case Some(name) =>
      var line := ImageLine(caption, ImagePath(pathPrefix, name));
      Ok(InsertImageAfterHeading(lines, headings[section].line, line))
  }

  /**
   * Placing an image under a parsed heading puts a blank line, the image line
   * and a blank line right below that heading, which stays where it was.
   * Every other line is kept in order, and so is every heading.
   */
  lemma PlacedImageFollowsHeading(lines: seq<string>, section: nat, name: string, caption: string, pathPrefix: string)
    requires section < |Headings(lines)|
    ensures var h := Headings(lines)[section];
      var r := PlaceImage(lines, Headings(lines), section, Some(name), caption, pathPrefix);
      h.line < |lines| && r.Ok? && r.value[h.line] == lines[h.line] && r.value[h.line + 1] == "" &&
      r.value[h.line + 2] == ImageLine(caption, ImagePath(pathPrefix, name)) && r.value[h.line + 3] == "" &&
      r.value[..h.line + 1] + r.value[h.line + 4..] == lines &&
      |Headings(r.value)| == |Headings(lines)| && Headings(r.value)[section] == h
  {
    var h := Headings(lines)[section];
    HeadingLinesWithin(lines);
    var line := ImageLine(caption, ImagePath(pathPrefix, name));
    ImageLineIsNoHeading(caption, ImagePath(pathPrefix, name));
    InsertKeepsHeadings(lines, h.line, line);
    var r := InsertImageAfterHeading(lines, h.line, line);
    assert InsertPosition(lines, h.line) == h.line + 1;
    assert r[h.line] == lines[h.line] by {
      assert r[..h.line + 1] == lines[..h.line + 1];
      assert r[h.line] == r[..h.line + 1][h.line];
    }
    assert r[h.line + 1] == "" && r[h.line + 2] == line && r[h.line + 3] == "" by {
      assert r[h.line + 1..h.line + 4][0] == r[h.line + 1];
      assert r[h.line + 1..h.line + 4][1] == r[h.line + 2];
      assert r[h.line + 1..h.line + 4][2] == r[h.line + 3];
    }
  }
}

/** The service-call report form: the materials list, the prompt for the
  * language model, the fixed fallback templates and the download name. */
module CallReport {
  import opened Text
  import opened Seqs

  /** The seven "additional materials" check boxes, in the order of the form. */
  datatype Materials = Materials(
    cat5: bool, extension: bool, powerSupply: bool, transceiver: bool,
    router: bool, mounting: bool, adapters: bool)

  /** What the submitted form holds. */
  datatype Form = Form(
    reportType: string, useAi: bool, place: string, reference: string,
    description: string, materials: Materials, extrasCustom: string)

  /** The list entry each ticked box contributes, in the order of the boxes. */
  const MaterialNames: seq<string> := [
    "CAT5 network cable", "Power extension", "Power supply", "Transceiver",
    "Router", "Mounting hardware", "Adapters"]

  function Ticked(m: Materials): (r: seq<bool>)
    ensures |r| == |MaterialNames|
  {
    [m.cat5, m.extension, m.powerSupply, m.transceiver, m.router, m.mounting, m.adapters]
  }

  lemma MaterialNamesDistinct()
    ensures NoDup(MaterialNames)
  {
  }

  /** The `names` whose flag is set, among the first `n`, in order. */
  function Picked<T>(names: seq<T>, flags: seq<bool>, n: nat): seq<T>
    requires |flags| == |names| && n <= |names|
  {
    if n == 0 then []
    else Picked(names, flags, n - 1) + (if flags[n - 1] then [names[n - 1]] else [])
  }

  lemma {:induction false} PickedSpec<T>(names: seq<T>, flags: seq<bool>, n: nat)
    requires |flags| == |names| && n <= |names| && NoDup(names)
    ensures forall k :: 0 <= k < |names| ==> (names[k] in Picked(names, flags, n) <==> k < n && flags[k])
    ensures forall i :: 0 <= i < |Picked(names, flags, n)| ==> Picked(names, flags, n)[i] in names
    ensures forall i, j :: 0 <= i < j < |Picked(names, flags, n)| ==>
      FirstIndex(names, Picked(names, flags, n)[i]) < FirstIndex(names, Picked(names, flags, n)[j])
    ensures forall i :: 0 <= i < |Picked(names, flags, n)| ==> FirstIndex(names, Picked(names, flags, n)[i]) < n
    decreases n
  {
    if n > 0 {
      PickedSpec(names, flags, n - 1);
      var prev := Picked(names, flags, n - 1);
      assert FirstIndex(names, names[n - 1]) == n - 1;
      forall k | 0 <= k < |names|
        ensures names[k] in Picked(names, flags, n) <==> k < n && flags[k]
      {
        if k != n - 1 {
          assert names[k] != names[n - 1];
        }
      }
    }
  }

  /** The entries of the ticked boxes, in the order of the boxes. */
  function TickedNames(m: Materials): seq<string> {
    Picked(MaterialNames, Ticked(m), |MaterialNames|)
  }

  /** A fixed name is listed exactly when its box is ticked, and the fixed
    * names keep the order of the boxes. */
  lemma TickedNamesSpec(m: Materials)
    ensures forall k :: 0 <= k < |MaterialNames| ==> (MaterialNames[k] in TickedNames(m) <==> Ticked(m)[k])
    ensures forall x :: x in TickedNames(m) ==> x in MaterialNames
    ensures forall i, j :: 0 <= i < j < |TickedNames(m)| ==>
      FirstIndex(MaterialNames, TickedNames(m)[i]) < FirstIndex(MaterialNames, TickedNames(m)[j])
  {
    MaterialNamesDistinct();
    PickedSpec(MaterialNames, Ticked(m), |MaterialNames|);
  }

  /** The trimmed, non-blank lines among `parts`, in order. */
  function StrippedLines(parts: seq<string>): seq<string> {
    if parts == [] then []
    else
      var t := Strip(parts[|parts| - 1]);
      StrippedLines(parts[..|parts| - 1]) + (if t != [] then [t] else [])
  }

  /** The free-text materials: one per line, trimmed, blank lines dropped. */
  function CustomMaterials(extras: string): seq<string> {
    StrippedLines(Split(extras, '\n'))
  }

  lemma {:induction false} StrippedLinesSpec(parts: seq<string>)
    ensures forall x :: x in StrippedLines(parts) ==> x != [] && IsTrimmed(x)
    ensures forall x :: x in StrippedLines(parts) <==> exists p :: p in parts && Strip(p) == x && x != []
    ensures forall x, c :: x in StrippedLines(parts) && c in x ==> exists p :: p in parts && c in p
    decreases |parts|
  {
    if parts != [] {
      var init := parts[..|parts| - 1];
      var last := parts[|parts| - 1];
      StrippedLinesSpec(init);
      StripSpec(last);
      assert parts == init + [last];
      forall x | x in StrippedLines(parts)
        ensures exists p :: p in parts && Strip(p) == x && x != []
      {
        if x in StrippedLines(init) {
          var p :| p in init && Strip(p) == x && x != [];
          assert p in parts;
        } else {
          assert last in parts;
        }
      }
      forall x | (exists p :: p in parts && Strip(p) == x && x != [])
        ensures x in StrippedLines(parts)
      {
        var p :| p in parts && Strip(p) == x && x != [];
        if p != last {
          assert p in init;
        }
      }
      forall x, c | x in StrippedLines(parts) && c in x
        ensures exists p :: p in parts && c in p
      {
        if x in StrippedLines(init) {
          var p :| p in init && c in p;
          assert p in parts;
        } else {
          assert last in parts;
        }
      }
    }
  }

  lemma {:induction false} StrippedLinesBlank(parts: seq<string>)
    requires forall i :: 0 <= i < |parts| ==> IsBlank(parts[i])
    ensures StrippedLines(parts) == []
    decreases |parts|
  {
    if parts != [] {
      StrippedLinesBlank(parts[..|parts| - 1]);
      StripSpec(parts[|parts| - 1]);
    }
  }

  /** Each free-text material is a trimmed, non-empty single line taken from
    * the text; every non-blank line contributes its trimmed self. */
  lemma CustomMaterialsSpec(extras: string)
    ensures forall x :: x in CustomMaterials(extras) ==> x != [] && IsTrimmed(x) && '\n' !in x
    ensures forall x :: x in CustomMaterials(extras) <==>
      exists line :: line in Split(extras, '\n') && Strip(line) == x && x != []
    ensures forall x, c :: x in CustomMaterials(extras) && c in x ==> c in extras
  {
    var parts := Split(extras, '\n');
    StrippedLinesSpec(parts);
    SplitPartsFree(extras, '\n');
    SplitPartsFrom(extras, '\n');
    forall x | x in CustomMaterials(extras)
      ensures '\n' !in x
    {
      var p :| p in parts && Strip(p) == x && x != [];
      StripSpec(p);
    }
  }

  /** Blank free text contributes nothing, so the form's own blank-text guard
    * only skips work that would add nothing. */
  lemma BlankExtrasAddNothing(extras: string)
    requires Strip(extras) == []
    ensures CustomMaterials(extras) == []
  {
    StripSpec(extras);
    var parts := Split(extras, '\n');
    SplitPartsFrom(extras, '\n');
    forall i | 0 <= i < |parts|
      ensures IsBlank(parts[i])
    {
      forall k | 0 <= k < |parts[i]|
        ensures IsSpace(parts[i][k])
      {
        var d := parts[i][k];
        assert d in parts[i];
        assert d in extras;
        var j :| 0 <= j < |extras| && extras[j] == d;
      }
    }
    StrippedLinesBlank(parts);
  }

  /** The materials list, built box by box and then extended with the free text. */
  method BuildMaterialList(m: Materials, extrasCustom: string) returns (items: seq<string>)
    ensures items == TickedNames(m) + CustomMaterials(extrasCustom)
  {
    items := TickedItems(m);
    if Strip(extrasCustom) != [] {
      items := items + CustomMaterials(extrasCustom);
    } else {
      BlankExtrasAddNothing(extrasCustom);
    }
  }

  /** The fixed entries of the materials list: one guarded append per box, in the order of the form. */
  method TickedItems(m: Materials) returns (items: seq<string>)
    ensures items == TickedNames(m)
  {
    items := [];
    var flags := Ticked(m);
    for k := 0 to |MaterialNames|
      invariant items == Picked(MaterialNames, flags, k)
    {
      if flags[k] {
        items := items + [MaterialNames[k]];
      }
    }
  }

  lemma MaterialNamesSingleLine()
    ensures forall k :: 0 <= k < |MaterialNames| ==> '\n' !in MaterialNames[k]
  {
  }

  /** No entry of the materials list spans two lines. */
  lemma MaterialListSingleLines(m: Materials, extras: string)
    ensures forall i :: 0 <= i < |TickedNames(m) + CustomMaterials(extras)| ==>
      '\n' !in (TickedNames(m) + CustomMaterials(extras))[i]
  {
    TickedNamesSpec(m);
    CustomMaterialsSpec(extras);
    MaterialNamesSingleLine();
    var items := TickedNames(m) + CustomMaterials(extras);
    forall i | 0 <= i < |items|
      ensures '\n' !in items[i]
    {
      if i < |TickedNames(m)| {
        assert items[i] in TickedNames(m);
        var k :| 0 <= k < |MaterialNames| && MaterialNames[k] == items[i];
      } else {
        assert items[i] in CustomMaterials(extras);
      }
    }
  }

  /** One "- item" bullet per material. */
  function Bullets(items: seq<string>): (r: seq<string>)
    ensures |r| == |items| && forall i :: 0 <= i < |items| ==> r[i] == "- " + items[i]
  {
    seq(|items|, i requires 0 <= i < |items| => "- " + items[i])
  }

  /** The materials as they appear in the prompt: bullets, or "None". */
  function ExtrasText(items: seq<string>): string {
    if items == [] then "None" else Join("\n", Bullets(items))
  }

  lemma {:induction false} JoinStartsWithFirst(sep: string, parts: seq<string>)
    requires |parts| >= 1
    ensures StartsWith(Join(sep, parts), parts[0])
    decreases |parts|
  {
    if |parts| > 1 {
      var init := parts[..|parts| - 1];
      JoinStartsWithFirst(sep, init);
      assert Join(sep, parts) == Join(sep, init) + (sep + parts[|parts| - 1]);
    }
  }

  /** "None" is shown exactly when no material was listed. */
  lemma ExtrasTextNone(items: seq<string>)
    ensures ExtrasText(items) == "None" <==> items == []
  {
    if items != [] {
      var b := Bullets(items);
      JoinStartsWithFirst("\n", b);
      assert b[0][0] == '-';
      assert ExtrasText(items)[0] == '-';
    }
  }

  /** A material list of single-line entries reads back one bullet per line. */
  lemma ExtrasTextLines(items: seq<string>)
    requires items != []
    requires forall i :: 0 <= i < |items| ==> '\n' !in items[i]
    ensures Split(ExtrasText(items), '\n') == Bullets(items)
  {
    SplitJoin(Bullets(items), '\n');
  }

  /** The materials section of the prompt holds one bullet line per listed material. */
  lemma MaterialsReadBack(m: Materials, extras: string)
    requires TickedNames(m) + CustomMaterials(extras) != []
    ensures Split(ExtrasText(TickedNames(m) + CustomMaterials(extras)), '\n')
         == Bullets(TickedNames(m) + CustomMaterials(extras))
  {
    MaterialListSingleLines(m, extras);
    ExtrasTextLines(TickedNames(m) + CustomMaterials(extras));
  }

  /** The facts paragraph: the description, or a default when it is empty. */
  function Facts(description: string): (r: string)
    ensures r != []
    ensures description != [] ==> r == description
    ensures description == [] ==> r == "No issues reported."
  {
    if description != [] then description else "No issues reported."
  }

  function FactsSection(description: string): string {
    "\nFacts:\n" + Facts(description) + "\n"
  }

  function MaterialsSection(extrasText: string): string {
    "\nAdditional materials used:\n" + extrasText + "\n"
  }

  const PromptClosing: string :=
    "\nWrite a concise, professional service report.\nDo not add assumptions or steps not mentioned.\n"

  /** The request sent to the language model. */
  function Prompt(reportType: string, place: string, reference: string,
                  description: string, extrasText: string): string
  {
    "\nReport type: " + reportType + "\n"
    + ("Location: " + place + "\n" + "Reference: " + reference + "\n"
       + (FactsSection(description) + (MaterialsSection(extrasText) + PromptClosing)))
  }

  /** The prompt opens with the report type on a line of its own. */
  lemma PromptStartsWithType(reportType: string, place: string, reference: string,
                             description: string, extrasText: string)
    ensures StartsWith(Prompt(reportType, place, reference, description, extrasText),
                       "\nReport type: " + reportType + "\n")
  {
    StartsWithConcat("\nReport type: " + reportType + "\n",
      "Location: " + place + "\n" + "Reference: " + reference + "\n"
       + (FactsSection(description) + (MaterialsSection(extrasText) + PromptClosing)));
  }

  /** The prompt carries the facts (or their default) and the materials text,
    * each under its heading and ended by a line break. */
  lemma PromptCarriesSections(reportType: string, place: string, reference: string,
                              description: string, extrasText: string)
    ensures Contains(Prompt(reportType, place, reference, description, extrasText),
                     "\nFacts:\n" + Facts(description) + "\n")
    ensures Contains(Prompt(reportType, place, reference, description, extrasText),
                     "\nAdditional materials used:\n" + extrasText + "\n")
  {
    var first := "\nReport type: " + reportType + "\n";
    var places := "Location: " + place + "\n" + "Reference: " + reference + "\n";
    var facts := FactsSection(description);
    var mats := MaterialsSection(extrasText);
    StartsWithConcat(facts, mats + PromptClosing);
    ContainsAfter(places, facts + (mats + PromptClosing), facts);
    ContainsAfter(first, places + (facts + (mats + PromptClosing)), facts);
    StartsWithConcat(mats, PromptClosing);
    ContainsAfter(facts, mats + PromptClosing, mats);
    ContainsAfter(places, facts + (mats + PromptClosing), mats);
    ContainsAfter(first, places + (facts + (mats + PromptClosing)), mats);
  }

  /** The fixed wording of each template, between its headline and the end. */
  const PmBody: string :=
    "\n\nBurster bins, rollers, and all related peripherals were cleaned.\n"
    + "Serial numbers for all components were recorded.\n"
    + "All hardware components were tested and verified as operational.\n"
    + "Keys were returned to the retailer upon completion."
  const InstallationIntro: string :=
    " Installation Summary\n\nUpon arrival at the site, the retailer indicated the preferred installation location and height.\n"
  const InstallationClosing: string :=
    "\n\nAfter completion, the equipment was tested and verified as operational."
  const DeinstallationBody: string :=
    "\n\nUpon arrival at the site, the retailer indicated the sign to be removed.\n"
    + "The deinstallation was completed successfully and all required photos were taken.\n"
    + "The equipment is being returned to the warehouse."

  /** The PM report: headline with place and reference, then the fixed checklist. */
  function PmSummary(place: string, reference: string): string {
    "PM completed at " + place + " (" + reference + ")" + PmBody
  }

  /** The installation report: headline, arrival sentence, the description, closing sentence. */
  function InstallationSummary(reference: string, description: string): string {
    "WJS Large Carmanah - " + reference + InstallationIntro + description + InstallationClosing
  }

  /** The deinstallation report up to the description. */
  function DeinstallationHead(reference: string): string {
    "WJS Sign Deinstallation Summary \U{2013} " + reference + DeinstallationBody
  }

  /** The templates as written, before trimming: each starts and ends with a line break. */
  function RawTemplate(reportType: string, place: string, reference: string, description: string): string {
    if reportType == "PM" then
      "\n" + PmSummary(place, reference) + "\n"
    else if reportType == "INSTALLATION" then
      "\n" + InstallationSummary(reference, description) + "\n"
    else
      "\n" + DeinstallationHead(reference) + ("\n" + description + "\n")
  }

  /** The fallback report used when the language model is not asked. */
  function Template(reportType: string, place: string, reference: string, description: string): (r: string)
    ensures IsTrimmed(r)
  {
    var raw := RawTemplate(reportType, place, reference, description);
    StripSpec(raw);
    Strip(raw)
  }

  lemma PmSummaryTrimmed(place: string, reference: string)
    ensures IsTrimmed(PmSummary(place, reference))
  {
    var s := PmSummary(place, reference);
    assert s[0] == 'P';
    assert s[|s| - 1] == PmBody[|PmBody| - 1] == '.';
  }

  lemma InstallationSummaryTrimmed(reference: string, description: string)
    ensures IsTrimmed(InstallationSummary(reference, description))
  {
    var s := InstallationSummary(reference, description);
    assert s[0] == 'W';
    assert s[|s| - 1] == InstallationClosing[|InstallationClosing| - 1] == '.';
  }

  lemma DeinstallationHeadEnds(reference: string)
    ensures var s := DeinstallationHead(reference);
      s != [] && !IsSpace(s[0]) && !IsSpace(s[|s| - 1])
  {
    var s := DeinstallationHead(reference);
    assert s[0] == 'W';
    assert s[|s| - 1] == DeinstallationBody[|DeinstallationBody| - 1] == '.';
  }

  /** Trimming a trimmed head followed by a line of text drops the text's
    * trailing whitespace, and the line itself when it is blank. */
  lemma StripHeadThenText(head: string, description: string)
    requires head != [] && !IsSpace(head[0]) && !IsSpace(head[|head| - 1])
    ensures Strip("\n" + head + ("\n" + description + "\n"))
         == head + (if IsBlank(description) then "" else "\n" + RStrip(description))
  {
    if IsBlank(description) {
      BlankLine(description);
      StripPadded("\n", head, "\n" + description + "\n");
    } else {
      StripHeadThenLine(head, description);
    }
  }

  lemma StripHeadThenLine(head: string, description: string)
    requires head != [] && !IsSpace(head[0]) && !IsSpace(head[|head| - 1])
    requires !IsBlank(description)
    ensures Strip("\n" + head + ("\n" + description + "\n")) == head + "\n" + RStrip(description)
  {
    var kept, dropped := TrailingBlank(description);
    var h := head + "\n" + kept;
    assert IsTrimmed(h) by {
      assert h[0] == head[0];
      assert h[|h| - 1] == kept[|kept| - 1];
    }
    Regroup(head, kept, dropped);
    BlankSnocLine(dropped);
    StripPadded("\n", h, dropped + "\n");
  }

  lemma BlankLine(s: string)
    requires IsBlank(s)
    ensures IsBlank("\n" + s + "\n")
  {
  }

  lemma BlankSnocLine(s: string)
    requires IsBlank(s)
    ensures IsBlank(s + "\n")
  {
  }

  lemma Regroup(head: string, kept: string, dropped: string)
    ensures "\n" + head + ("\n" + (kept + dropped) + "\n") == "\n" + (head + "\n" + kept) + (dropped + "\n")
  {
  }

  /** A non-blank text is its right-trimmed part followed by blank trailing whitespace. */
  lemma TrailingBlank(s: string) returns (kept: string, dropped: string)
    requires !IsBlank(s)
    ensures kept == RStrip(s) && s == kept + dropped && IsBlank(dropped)
    ensures kept != [] && !IsSpace(kept[|kept| - 1])
  {
    RStripSpec(s);
    kept := RStrip(s);
    dropped := s[|kept|..];
    if kept == [] {
      assert false;
    }
  }

  /** Trimming a template removes only its surrounding line breaks, except that
    * a deinstallation report also loses the description's trailing whitespace
    * (and the line break before it when the description is blank). The
    * description's leading whitespace survives in both templates that use it. */
  lemma TemplateSpec(reportType: string, place: string, reference: string, description: string)
    ensures reportType == "PM" ==>
      Template(reportType, place, reference, description) == PmSummary(place, reference)
    ensures reportType == "INSTALLATION" ==>
      Template(reportType, place, reference, description) == InstallationSummary(reference, description)
    ensures reportType != "PM" && reportType != "INSTALLATION" ==>
      Template(reportType, place, reference, description)
      == DeinstallationHead(reference) + (if IsBlank(description) then "" else "\n" + RStrip(description))
  {
    if reportType == "PM" {
      PmSummaryTrimmed(place, reference);
      StripPadded("\n", PmSummary(place, reference), "\n");
    } else if reportType == "INSTALLATION" {
      InstallationSummaryTrimmed(reference, description);
      StripPadded("\n", InstallationSummary(reference, description), "\n");
    } else {
      DeinstallationHeadEnds(reference);
      StripHeadThenText(DeinstallationHead(reference), description);
    }
  }

  /** The text shown and offered for download: the model's reply, trimmed, or
    * the fixed template. `ai` stands for the language model. */
  function ReportText(form: Form, ai: string -> string): (r: string)
    ensures IsTrimmed(r)
  {
    if form.useAi then
      var items := TickedNames(form.materials) + CustomMaterials(form.extrasCustom);
      var reply := ai(Prompt(form.reportType, form.place, form.reference, form.description, ExtrasText(items)));
      StripSpec(reply);
      Strip(reply)
    else
      Template(form.reportType, form.place, form.reference, form.description)
  }

  /** The download name: the report type in lower case, then "_report.txt". */
  function ReportFileName(reportType: string): (r: string)
    ensures EndsWith(r, "_report.txt")
    ensures |r| == |reportType| + |"_report.txt"|
  {
    Lower(reportType) + "_report.txt"
  }

  /** A report type whose lower-case form is `lower` gives `lower` followed by the suffix. */
  lemma ReportFileNameOf(reportType: string, lower: string)
    requires |lower| == |reportType| && forall i :: 0 <= i < |lower| ==> lower[i] == LowerChar(reportType[i])
    ensures ReportFileName(reportType) == lower + "_report.txt"
  {
    assert Lower(reportType) == lower;
  }

  /** The names the three report types of the form produce. */
  lemma ReportFileNames()
    ensures ReportFileName("PM") == "pm_report.txt"
    ensures ReportFileName("INSTALLATION") == "installation_report.txt"
    ensures ReportFileName("DEINSTALLATION") == "deinstallation_report.txt"
  {
    ReportFileNameOf("PM", "pm");
    ReportFileNameOf("INSTALLATION", "installation");
    ReportFileNameOf("DEINSTALLATION", "deinstallation");
  }

  /** Handling a submitted form: build the materials list, then produce the
    * report and its download name. */
  method Submit(form: Form, ai: string -> string) returns (report: string, fileName: string)
    ensures report == ReportText(form, ai)
    ensures fileName == ReportFileName(form.reportType)
  {
    var items := BuildMaterialList(form.materials, form.extrasCustom);
    var extrasText := ExtrasText(items);
    if form.useAi {
      var prompt := Prompt(form.reportType, form.place, form.reference, form.description, extrasText);
      report := Strip(ai(prompt));
    } else {
      report := Template(form.reportType, form.place, form.reference, form.description);
    }
    fileName := ReportFileName(form.reportType);
  }
}

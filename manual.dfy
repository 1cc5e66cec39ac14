/** The technical-manual database: procedures with their numbered steps,
  * machine parts and part serial numbers, the required-field checks that
  * guard every insert, and the views the manual pages compute from the tables. */
module Manual {
  import opened Results
  import opened Text
  import opened Seqs
  import Order

  // ---------------------------------------------------------------------------
  // Records. A field the pages read with a default (`doc.get(key, default)`)
  // is an Option: documents written by older versions may lack it.
  // ---------------------------------------------------------------------------

  datatype Procedure = Procedure(
    id: nat, name: string, category: Option<string>, machineModel: Option<string>,
    description: Option<string>, createdAt: Option<string>)

  datatype Step = Step(
    id: nat, procedureId: nat, stepNumber: Option<int>, text: string,
    imagePath: Option<string>, createdAt: string)

  datatype Part = Part(
    id: nat, name: string, machineModel: Option<string>, location: string,
    notes: string, imagePath: Option<string>, createdAt: string)

  datatype Serial = Serial(
    id: nat, partId: nat, serialText: string, technician: string,
    machineTag: string, notes: string, createdAt: string, source: string)

  function ProcedureId(p: Procedure): nat { p.id }
  function StepId(s: Step): nat { s.id }
  function PartId(p: Part): nat { p.id }
  function SerialId(s: Serial): nat { s.id }

  // ---------------------------------------------------------------------------
  // Document ids
  // ---------------------------------------------------------------------------

  /** The id the table gives its next document: one more than the largest id
    * in the table, or 1 for an empty table. */
  function NextDocId<T>(docs: seq<T>, id: T -> nat): (r: nat)
    ensures r >= 1
    ensures forall i :: 0 <= i < |docs| ==> id(docs[i]) < r
    ensures docs != [] ==> exists i :: 0 <= i < |docs| && id(docs[i]) == r - 1
  {
    if docs == [] then 1
    else
      var prev := NextDocId(docs[..|docs| - 1], id);
      var last := id(docs[|docs| - 1]);
      if last + 1 > prev then last + 1 else prev
  }

  /** Ids grow along the table, so no two documents share one. */
  predicate IdsIncrease<T>(docs: seq<T>, id: T -> nat) {
    forall i, j :: 0 <= i < j < |docs| ==> id(docs[i]) < id(docs[j])
  }

  lemma AppendKeepsIds<T>(docs: seq<T>, id: T -> nat, x: T)
    requires IdsIncrease(docs, id) && id(x) == NextDocId(docs, id)
    ensures IdsIncrease(docs + [x], id)
  {
  }

  // ---------------------------------------------------------------------------
  // Step numbers
  // ---------------------------------------------------------------------------

  /** A step's number, 0 when the document has none. */
  function Number(s: Step): int {
    s.stepNumber.GetOr(0)
  }

  /** The steps of procedure `pid`, in table order. */
  function StepsOf(steps: seq<Step>, pid: nat): seq<Step> {
    if steps == [] then []
    else
      var last := steps[|steps| - 1];
      StepsOf(steps[..|steps| - 1], pid) + (if last.procedureId == pid then [last] else [])
  }

  lemma {:induction false} StepsOfSpec(steps: seq<Step>, pid: nat)
    ensures forall s :: s in StepsOf(steps, pid) <==> s in steps && s.procedureId == pid
    decreases |steps|
  {
    if steps != [] {
      StepsOfSpec(steps[..|steps| - 1], pid);
      assert steps == steps[..|steps| - 1] + [steps[|steps| - 1]];
    }
  }

  lemma StepsOfSnoc(steps: seq<Step>, s: Step, pid: nat)
    ensures StepsOf(steps + [s], pid) == StepsOf(steps, pid) + (if s.procedureId == pid then [s] else [])
  {
    assert (steps + [s])[..|steps|] == steps;
  }

  /** The largest number among `steps`. */
  function MaxNumber(steps: seq<Step>): int
    requires steps != []
  {
    if |steps| == 1 then Number(steps[0])
    else
      var m := MaxNumber(steps[..|steps| - 1]);
      if Number(steps[|steps| - 1]) > m then Number(steps[|steps| - 1]) else m
  }

  lemma {:induction false} MaxNumberSpec(steps: seq<Step>)
    requires steps != []
    ensures forall s :: s in steps ==> Number(s) <= MaxNumber(steps)
    ensures exists s :: s in steps && Number(s) == MaxNumber(steps)
    decreases |steps|
  {
    if |steps| > 1 {
      var init := steps[..|steps| - 1];
      MaxNumberSpec(init);
      assert steps == init + [steps[|steps| - 1]];
      var last := steps[|steps| - 1];
      assert last in steps;
      if Number(last) > MaxNumber(init) {
        assert Number(last) == MaxNumber(steps);
      } else {
        var w :| w in init && Number(w) == MaxNumber(init);
        assert w in steps && Number(w) == MaxNumber(steps);
      }
    } else {
      assert steps == [steps[0]];
      assert steps[0] in steps;
    }
  }

  /** The number a new step of procedure `pid` gets: one more than the largest
    * number among that procedure's steps, or 1 when it has none. */
  function NextStepNumber(steps: seq<Step>, pid: nat): int {
    var mine := StepsOf(steps, pid);
    if mine == [] then 1 else MaxNumber(mine) + 1
  }

  lemma NextStepNumberSpec(steps: seq<Step>, pid: nat)
    ensures forall s :: s in steps && s.procedureId == pid ==> Number(s) < NextStepNumber(steps, pid)
    ensures (forall s :: s in steps ==> s.procedureId != pid) ==> NextStepNumber(steps, pid) == 1
    ensures (exists s :: s in steps && s.procedureId == pid) ==>
      exists s :: s in steps && s.procedureId == pid && Number(s) == NextStepNumber(steps, pid) - 1
  {
    StepsOfSpec(steps, pid);
    var mine := StepsOf(steps, pid);
    if mine != [] {
      MaxNumberSpec(mine);
    } else {
      assert forall s :: s in steps ==> s.procedureId != pid;
    }
  }

  /** Within each procedure, later steps carry larger numbers. */
  predicate NumbersIncrease(steps: seq<Step>) {
    forall i, j :: 0 <= i < j < |steps| && steps[i].procedureId == steps[j].procedureId ==>
      Number(steps[i]) < Number(steps[j])
  }

  /** The step the manual stores when a step is added to procedure `pid`. */
  function NewStep(steps: seq<Step>, pid: nat, text: string, imagePath: Option<string>, createdAt: string): Step {
    Step(NextDocId(steps, StepId), pid, Some(NextStepNumber(steps, pid)), text, imagePath, createdAt)
  }

  /** Adding a step keeps every procedure's numbers increasing, hence
    * distinct: the new number is above every earlier step of its procedure. */
  lemma AddStepKeepsNumbering(steps: seq<Step>, pid: nat, text: string, imagePath: Option<string>, createdAt: string)
    requires NumbersIncrease(steps)
    ensures NumbersIncrease(steps + [NewStep(steps, pid, text, imagePath, createdAt)])
  {
    var s := NewStep(steps, pid, text, imagePath, createdAt);
    var all := steps + [s];
    NextStepNumberSpec(steps, pid);
    forall i, j | 0 <= i < j < |all| && all[i].procedureId == all[j].procedureId
      ensures Number(all[i]) < Number(all[j])
    {
      if j == |steps| {
        assert all[i] in steps;
      }
    }
  }

  /** Adding a step to procedure `pid` appends it to that procedure's steps
    * and leaves every other procedure's steps as they were. */
  lemma AddStepTouchesOneProcedure(steps: seq<Step>, pid: nat, text: string, imagePath: Option<string>, createdAt: string)
    ensures StepsOf(steps + [NewStep(steps, pid, text, imagePath, createdAt)], pid)
         == StepsOf(steps, pid) + [NewStep(steps, pid, text, imagePath, createdAt)]
    ensures forall q :: q != pid ==>
      StepsOf(steps + [NewStep(steps, pid, text, imagePath, createdAt)], q) == StepsOf(steps, q)
  {
    var s := NewStep(steps, pid, text, imagePath, createdAt);
    StepsOfSnoc(steps, s, pid);
    forall q | q != pid
      ensures StepsOf(steps + [s], q) == StepsOf(steps, q)
    {
      StepsOfSnoc(steps, s, q);
    }
  }

  // ---------------------------------------------------------------------------
  // Step display order
  // ---------------------------------------------------------------------------

  predicate SortedByNumber(steps: seq<Step>) {
    forall i, j :: 0 <= i < j < |steps| ==> Number(steps[i]) <= Number(steps[j])
  }

  /** Places `s` after every step whose number is not larger. */
  function InsertByNumber(sorted: seq<Step>, s: Step): seq<Step> {
    if sorted == [] || Number(sorted[|sorted| - 1]) <= Number(s) then sorted + [s]
    else InsertByNumber(sorted[..|sorted| - 1], s) + [sorted[|sorted| - 1]]
  }

  /** Steps ordered by number, missing numbers counting as 0. */
  function SortByNumber(steps: seq<Step>): seq<Step> {
    if steps == [] then []
    else InsertByNumber(SortByNumber(steps[..|steps| - 1]), steps[|steps| - 1])
  }

  /** Inserting adds exactly `s`. */
  lemma {:induction false} InsertByNumberPerm(sorted: seq<Step>, s: Step)
    ensures multiset(InsertByNumber(sorted, s)) == multiset(sorted) + multiset{s}
    decreases |sorted|
  {
    if sorted != [] && Number(sorted[|sorted| - 1]) > Number(s) {
      var init := sorted[..|sorted| - 1];
      InsertByNumberPerm(init, s);
      assert sorted == init + [sorted[|sorted| - 1]];
    }
  }

  /** Inserting into a list sorted by number keeps it sorted. */
  lemma {:induction false} InsertByNumberSorted(sorted: seq<Step>, s: Step)
    requires SortedByNumber(sorted)
    ensures SortedByNumber(InsertByNumber(sorted, s))
    decreases |sorted|
  {
    if sorted != [] && Number(sorted[|sorted| - 1]) > Number(s) {
      var init := sorted[..|sorted| - 1];
      var last := sorted[|sorted| - 1];
      InsertByNumberSorted(init, s);
      InsertByNumberPerm(init, s);
      var r := InsertByNumber(init, s);
      forall t | t in r
        ensures Number(t) <= Number(last)
      {
        assert t in multiset(r);
        if t != s {
          assert t in multiset(init);
          var k :| 0 <= k < |init| && init[k] == t;
          assert sorted[k] == t;
        }
      }
      SortedSnoc(r, last);
    } else {
      SortedSnoc(sorted, s);
    }
  }

  lemma InsertByNumberSpec(sorted: seq<Step>, s: Step)
    requires SortedByNumber(sorted)
    ensures SortedByNumber(InsertByNumber(sorted, s))
    ensures multiset(InsertByNumber(sorted, s)) == multiset(sorted) + multiset{s}
    ensures |InsertByNumber(sorted, s)| == |sorted| + 1
    ensures forall t :: t in InsertByNumber(sorted, s) ==> t == s || t in sorted
  {
    InsertByNumberSorted(sorted, s);
    InsertByNumberPerm(sorted, s);
    var r := InsertByNumber(sorted, s);
    assert |r| == |multiset(r)|;
    forall t | t in r
      ensures t == s || t in sorted
    {
      assert t in multiset(r);
    }
  }

  /** A step numbered no lower than every step of a sorted list can follow it. */
  lemma SortedSnoc(r: seq<Step>, last: Step)
    requires SortedByNumber(r) && forall t :: t in r ==> Number(t) <= Number(last)
    ensures SortedByNumber(r + [last])
  {
    var r' := r + [last];
    forall i, j | 0 <= i < j < |r'|
      ensures Number(r'[i]) <= Number(r'[j])
    {
      assert r'[i] == r[i] && r[i] in r;
    }
  }

  lemma {:induction false} SortByNumberPerm(steps: seq<Step>)
    ensures multiset(SortByNumber(steps)) == multiset(steps)
    decreases |steps|
  {
    if steps != [] {
      var init := steps[..|steps| - 1];
      SortByNumberPerm(init);
      InsertByNumberPerm(SortByNumber(init), steps[|steps| - 1]);
      assert steps == init + [steps[|steps| - 1]];
    }
  }

  lemma {:induction false} SortByNumberSorted(steps: seq<Step>)
    ensures SortedByNumber(SortByNumber(steps))
    decreases |steps|
  {
    if steps != [] {
      var init := steps[..|steps| - 1];
      SortByNumberSorted(init);
      InsertByNumberSorted(SortByNumber(init), steps[|steps| - 1]);
    }
  }

  lemma SortByNumberSpec(steps: seq<Step>)
    ensures SortedByNumber(SortByNumber(steps))
    ensures multiset(SortByNumber(steps)) == multiset(steps)
    ensures |SortByNumber(steps)| == |steps|
  {
    SortByNumberSorted(steps);
    SortByNumberPerm(steps);
    assert |SortByNumber(steps)| == |multiset(SortByNumber(steps))|;
  }

  /** Steps already in strictly increasing order come back unchanged. */
  lemma {:induction false} SortByNumberKeepsIncreasing(steps: seq<Step>)
    requires forall i, j :: 0 <= i < j < |steps| ==> Number(steps[i]) < Number(steps[j])
    ensures SortByNumber(steps) == steps
    decreases |steps|
  {
    if steps != [] {
      var init := steps[..|steps| - 1];
      SortByNumberKeepsIncreasing(init);
      if init != [] {
        assert Number(init[|init| - 1]) < Number(steps[|steps| - 1]);
      }
      assert steps == init + [steps[|steps| - 1]];
    }
  }

  /** The steps the manual lists for procedure `pid`, in the order it lists them. */
  function ProcedureSteps(steps: seq<Step>, pid: nat): seq<Step> {
    SortByNumber(StepsOf(steps, pid))
  }

  /** The listed steps are exactly the procedure's steps, ordered by number. */
  lemma ProcedureStepsSpec(steps: seq<Step>, pid: nat)
    ensures SortedByNumber(ProcedureSteps(steps, pid))
    ensures multiset(ProcedureSteps(steps, pid)) == multiset(StepsOf(steps, pid))
    ensures forall s :: s in ProcedureSteps(steps, pid) <==> s in steps && s.procedureId == pid
  {
    SortByNumberSpec(StepsOf(steps, pid));
    StepsOfSpec(steps, pid);
    forall s
      ensures s in ProcedureSteps(steps, pid) <==> s in StepsOf(steps, pid)
    {
      assert s in ProcedureSteps(steps, pid) <==> s in multiset(ProcedureSteps(steps, pid));
      assert s in StepsOf(steps, pid) <==> s in multiset(StepsOf(steps, pid));
    }
  }

  lemma {:induction false} StepsOfIncrease(steps: seq<Step>, pid: nat)
    requires NumbersIncrease(steps)
    ensures forall i, j :: 0 <= i < j < |StepsOf(steps, pid)| ==>
      Number(StepsOf(steps, pid)[i]) < Number(StepsOf(steps, pid)[j])
    decreases |steps|
  {
    if steps != [] {
      var init := steps[..|steps| - 1];
      var last := steps[|steps| - 1];
      StepsOfIncrease(init, pid);
      StepsOfSpec(init, pid);
      var mine := StepsOf(init, pid);
      if last.procedureId == pid {
        forall i | 0 <= i < |mine|
          ensures Number(mine[i]) < Number(last)
        {
          assert mine[i] in init;
          var k :| 0 <= k < |init| && init[k] == mine[i];
          assert steps[k] == mine[i];
        }
      }
    }
  }

  /** Steps numbered by the manual itself are listed in the order they were added. */
  lemma ProcedureStepsInAddedOrder(steps: seq<Step>, pid: nat)
    requires NumbersIncrease(steps)
    ensures ProcedureSteps(steps, pid) == StepsOf(steps, pid)
  {
    StepsOfIncrease(steps, pid);
    SortByNumberKeepsIncreasing(StepsOf(steps, pid));
  }

  // ---------------------------------------------------------------------------
  // The procedure view: category options and the filter
  // ---------------------------------------------------------------------------

  /** A procedure's category, "Uncategorized" when it has none. */
  function CategoryOf(p: Procedure): string {
    p.category.GetOr("Uncategorized")
  }

  function Categories(procs: seq<Procedure>): (r: seq<string>)
    ensures |r| == |procs| && forall i :: 0 <= i < |procs| ==> r[i] == CategoryOf(procs[i])
  {
    seq(|procs|, i requires 0 <= i < |procs| => CategoryOf(procs[i]))
  }

  /** The choices of the category filter. */
  function CategoryOptions(procs: seq<Procedure>): seq<string> {
    ["All"] + Order.SortedSet(Categories(procs))
  }

  /** "All" comes first, then every category in use, once each, in ascending order. */
  lemma CategoryOptionsSpec(procs: seq<Procedure>)
    ensures CategoryOptions(procs)[0] == "All"
    ensures Order.StrictlySorted(CategoryOptions(procs)[1..])
    ensures NoDup(CategoryOptions(procs)[1..])
    ensures forall c :: c in CategoryOptions(procs)[1..] <==> exists p :: p in procs && CategoryOf(p) == c
  {
    var cats := Categories(procs);
    Order.SortedSetSpec(cats);
    assert CategoryOptions(procs)[1..] == Order.SortedSet(cats);
    forall c
      ensures c in cats <==> exists p :: p in procs && CategoryOf(p) == c
    {
      if c in cats {
        var i :| 0 <= i < |cats| && cats[i] == c;
        assert procs[i] in procs;
      }
      if exists p :: p in procs && CategoryOf(p) == c {
        var p :| p in procs && CategoryOf(p) == c;
        var i :| 0 <= i < |procs| && procs[i] == p;
        assert cats[i] == c;
      }
    }
  }

  /** The text search: empty, or found (ignoring case) in the name and description. */
  predicate TextMatches(p: Procedure, textFilter: string) {
    textFilter == [] || Contains(Lower(p.name + " " + p.description.GetOr("")), Lower(textFilter))
  }

  /** The filter as the view applies it: the category test reads the stored
    * category with no default. */
  predicate ShownAsWritten(p: Procedure, categoryFilter: string, textFilter: string) {
    (categoryFilter == "All" || p.category == Some(categoryFilter)) && TextMatches(p, textFilter)
  }

  /** The filter with the category test reading the category the options list
    * shows, so that choosing "Uncategorized" finds the procedures without one. */
  predicate Shown(p: Procedure, categoryFilter: string, textFilter: string) {
    (categoryFilter == "All" || CategoryOf(p) == categoryFilter) && TextMatches(p, textFilter)
  }

  /** The two filters disagree exactly on a procedure without a category when
    * "Uncategorized" is chosen and the text search matches. */
  lemma FiltersDisagree(p: Procedure, categoryFilter: string, textFilter: string)
    ensures ShownAsWritten(p, categoryFilter, textFilter) != Shown(p, categoryFilter, textFilter)
        <==> p.category.None? && categoryFilter == "Uncategorized" && TextMatches(p, textFilter)
  {
  }

  /** The category test of the view as written, or the corrected one. */
  predicate Passes(p: Procedure, categoryFilter: string, textFilter: string, corrected: bool) {
    if corrected then Shown(p, categoryFilter, textFilter) else ShownAsWritten(p, categoryFilter, textFilter)
  }

  /** The procedures that pass the chosen filter, in table order. */
  function Listed(procs: seq<Procedure>, categoryFilter: string, textFilter: string, corrected: bool): seq<Procedure> {
    if procs == [] then []
    else
      var last := procs[|procs| - 1];
      Listed(procs[..|procs| - 1], categoryFilter, textFilter, corrected)
      + (if Passes(last, categoryFilter, textFilter, corrected) then [last] else [])
  }

  lemma {:induction false} ListedSpec(procs: seq<Procedure>, categoryFilter: string, textFilter: string, corrected: bool)
    ensures forall p :: (p in Listed(procs, categoryFilter, textFilter, corrected)
                         <==> p in procs && Passes(p, categoryFilter, textFilter, corrected))
    ensures categoryFilter == "All" && textFilter == [] ==> Listed(procs, categoryFilter, textFilter, corrected) == procs
    decreases |procs|
  {
    if procs != [] {
      ListedSpec(procs[..|procs| - 1], categoryFilter, textFilter, corrected);
      assert procs == procs[..|procs| - 1] + [procs[|procs| - 1]];
    }
  }

  /** The procedures the view lists, in table order, with the filter as written. */
  function VisibleProcedures(procs: seq<Procedure>, categoryFilter: string, textFilter: string): seq<Procedure> {
    Listed(procs, categoryFilter, textFilter, false)
  }

  /** The procedures the view would list with the corrected category test. */
  function CorrectedVisibleProcedures(procs: seq<Procedure>, categoryFilter: string, textFilter: string): seq<Procedure> {
    Listed(procs, categoryFilter, textFilter, true)
  }

  /** The view lists a procedure exactly when its stored category is the one
    * chosen (or "All" is chosen) and the text search finds it. */
  lemma VisibleProceduresSpec(procs: seq<Procedure>, categoryFilter: string, textFilter: string)
    ensures forall p :: (p in VisibleProcedures(procs, categoryFilter, textFilter)
                         <==> p in procs && ShownAsWritten(p, categoryFilter, textFilter))
    ensures categoryFilter == "All" && textFilter == [] ==> VisibleProcedures(procs, categoryFilter, textFilter) == procs
  {
    ListedSpec(procs, categoryFilter, textFilter, false);
  }

  /** The corrected view lists a procedure exactly when its listed category
    * (with "Uncategorized" for none) is the one chosen and the text search finds it. */
  lemma CorrectedVisibleProceduresSpec(procs: seq<Procedure>, categoryFilter: string, textFilter: string)
    ensures forall p :: (p in CorrectedVisibleProcedures(procs, categoryFilter, textFilter)
                         <==> p in procs && Shown(p, categoryFilter, textFilter))
    ensures categoryFilter == "All" && textFilter == [] ==> CorrectedVisibleProcedures(procs, categoryFilter, textFilter) == procs
  {
    ListedSpec(procs, categoryFilter, textFilter, true);
  }

  /** A procedure stored without a category is offered under "Uncategorized",
    * yet the view as written lists nothing when that option is chosen; the
    * corrected view lists it. */
  lemma UncategorizedHiddenAsWritten()
    ensures var p := Procedure(1, "Belt change", None, None, None, None);
      "Uncategorized" in CategoryOptions([p])
      && VisibleProcedures([p], "Uncategorized", "") == []
      && CorrectedVisibleProcedures([p], "Uncategorized", "") == [p]
  {
    var p := Procedure(1, "Belt change", None, None, None, None);
    assert Categories([p]) == ["Uncategorized"];
    assert Order.SortedSet(["Uncategorized"]) == ["Uncategorized"];
    assert CategoryOptions([p]) == ["All", "Uncategorized"];
    assert [p][..0] == [];
  }

  /** With the corrected filter, every category option lists at least one procedure. */
  lemma EveryOptionListsSomething(procs: seq<Procedure>, c: string)
    requires procs != [] && c in CategoryOptions(procs)
    ensures CorrectedVisibleProcedures(procs, c, "") != []
  {
    CategoryOptionsSpec(procs);
    CorrectedVisibleProceduresSpec(procs, c, "");
    if c == "All" {
      assert procs[0] in procs;
      assert Shown(procs[0], c, "");
    } else {
      assert c in CategoryOptions(procs)[1..];
      var p :| p in procs && CategoryOf(p) == c;
      assert Shown(p, c, "");
    }
  }

  // ---------------------------------------------------------------------------
  // Choice lists: label -> id, and the labels in order
  // ---------------------------------------------------------------------------

  /** " (ID n)", the end of every choice label. */
  function IdSuffix(id: nat): string {
    " (ID " + NatToString(id) + ")"
  }

  function ProcedureLabel(p: Procedure): string {
    p.name + IdSuffix(p.id)
  }

  function PartLabel(p: Part): string {
    p.name + " \U{2013} " + p.machineModel.GetOr("Model not provided") + IdSuffix(p.id)
  }

  function LabelsOf<T>(items: seq<T>, labelOf: T -> string): (r: seq<string>)
    ensures |r| == |items| && forall i :: 0 <= i < |items| ==> r[i] == labelOf(items[i])
  {
    seq(|items|, i requires 0 <= i < |items| => labelOf(items[i]))
  }

  /** The label -> id mapping, built item by item; a repeated label keeps the
    * last item's id. */
  function ChoiceMap<T>(items: seq<T>, labelOf: T -> string, id: T -> nat): map<string, nat> {
    if items == [] then map[]
    else ChoiceMap(items[..|items| - 1], labelOf, id)[labelOf(items[|items| - 1]) := id(items[|items| - 1])]
  }

  /** The mapping and its keys in insertion order; both empty for an empty table. */
  function Choices<T>(items: seq<T>, labelOf: T -> string, id: T -> nat): (map<string, nat>, seq<string>) {
    if items == [] then (map[], [])
    else (ChoiceMap(items, labelOf, id), Dedup(LabelsOf(items, labelOf)))
  }

  function ProcedureChoices(procs: seq<Procedure>): (map<string, nat>, seq<string>) {
    Choices(procs, ProcedureLabel, ProcedureId)
  }

  function PartChoices(parts: seq<Part>): (map<string, nat>, seq<string>) {
    Choices(parts, PartLabel, PartId)
  }

  lemma {:induction false} ChoiceMapSpec<T>(items: seq<T>, labelOf: T -> string, id: T -> nat)
    ensures forall l :: l in ChoiceMap(items, labelOf, id) <==> l in LabelsOf(items, labelOf)
    ensures forall l :: l in ChoiceMap(items, labelOf, id) ==>
      exists i :: 0 <= i < |items| && labelOf(items[i]) == l && ChoiceMap(items, labelOf, id)[l] == id(items[i])
    decreases |items|
  {
    if items != [] {
      var init := items[..|items| - 1];
      ChoiceMapSpec(init, labelOf, id);
      assert LabelsOf(items, labelOf) == LabelsOf(init, labelOf) + [labelOf(items[|items| - 1])];
      forall l | l in ChoiceMap(items, labelOf, id)
        ensures exists i :: 0 <= i < |items| && labelOf(items[i]) == l && ChoiceMap(items, labelOf, id)[l] == id(items[i])
      {
        var m, last := ChoiceMap(init, labelOf, id), items[|items| - 1];
        assert ChoiceMap(items, labelOf, id) == m[labelOf(last) := id(last)];
        if l != labelOf(last) {
          assert l in m && ChoiceMap(items, labelOf, id)[l] == m[l];
          var i :| 0 <= i < |init| && labelOf(init[i]) == l && m[l] == id(init[i]);
          assert items[i] == init[i];
        } else {
          assert ChoiceMap(items, labelOf, id)[l] == id(items[|items| - 1]);
        }
      }
    }
  }

  /** The labels are exactly the mapping's keys, each once, and each key maps
    * to the id of an item bearing that label. */
  lemma ChoicesSpec<T>(items: seq<T>, labelOf: T -> string, id: T -> nat)
    ensures items == [] ==> Choices(items, labelOf, id) == (map[], [])
    ensures NoDup(Choices(items, labelOf, id).1)
    ensures forall l :: l in Choices(items, labelOf, id).0 <==> l in Choices(items, labelOf, id).1
    ensures forall l :: l in Choices(items, labelOf, id).0 ==>
      exists i :: 0 <= i < |items| && labelOf(items[i]) == l && Choices(items, labelOf, id).0[l] == id(items[i])
  {
    if items != [] {
      ChoiceMapSpec(items, labelOf, id);
      DedupSpec(LabelsOf(items, labelOf));
    }
  }

  /** With distinct labels, the choice list is one label per item in table
    * order, and each label maps to its own item's id. */
  lemma {:induction false} ChoicesDistinct<T>(items: seq<T>, labelOf: T -> string, id: T -> nat)
    requires forall i, j :: 0 <= i < j < |items| ==> labelOf(items[i]) != labelOf(items[j])
    ensures Choices(items, labelOf, id).1 == LabelsOf(items, labelOf)
    ensures forall i :: 0 <= i < |items| ==>
      labelOf(items[i]) in Choices(items, labelOf, id).0 && Choices(items, labelOf, id).0[labelOf(items[i])] == id(items[i])
    decreases |items|
  {
    if items != [] {
      var init := items[..|items| - 1];
      var last := items[|items| - 1];
      ChoicesDistinct(init, labelOf, id);
      ChoiceMapSpec(init, labelOf, id);
      var ls := LabelsOf(items, labelOf);
      assert ls == LabelsOf(init, labelOf) + [labelOf(last)];
      assert labelOf(last) !in LabelsOf(init, labelOf);
      if init == [] {
        assert Dedup(ls) == Dedup(ls[..0]) + [labelOf(last)];
      } else {
        assert ls[..|ls| - 1] == LabelsOf(init, labelOf);
      }
    }
  }

  /** The id at the end of a label can be read back, so labels of documents
    * with different ids differ. */
  lemma IdSuffixInjective(a: string, b: string, i: nat, j: nat)
    requires a + IdSuffix(i) == b + IdSuffix(j)
    ensures i == j
  {
    var s := a + IdSuffix(i);
    var di := NatToString(i);
    var dj := NatToString(j);
    var n := |s|;
    assert s[n - 1 - |di|..n - 1] == di;
    assert s[n - 1 - |dj|..n - 1] == dj;
    assert s[n - 2 - |di|] == ' ';
    assert s[n - 2 - |dj|] == ' ';
    assert |di| == |dj|;
    NatToStringInjective(i, j);
  }

  /** For a table whose ids are distinct, the procedure choices list every
    * procedure once, in table order, each label mapping to its procedure's id. */
  lemma ProcedureChoicesSpec(procs: seq<Procedure>)
    requires IdsIncrease(procs, ProcedureId)
    ensures ProcedureChoices(procs).1 == LabelsOf(procs, ProcedureLabel)
    ensures forall i :: 0 <= i < |procs| ==>
      ProcedureLabel(procs[i]) in ProcedureChoices(procs).0 && ProcedureChoices(procs).0[ProcedureLabel(procs[i])] == procs[i].id
  {
    forall i, j | 0 <= i < j < |procs|
      ensures ProcedureLabel(procs[i]) != ProcedureLabel(procs[j])
    {
      if ProcedureLabel(procs[i]) == ProcedureLabel(procs[j]) {
        IdSuffixInjective(procs[i].name, procs[j].name, procs[i].id, procs[j].id);
      }
    }
    ChoicesDistinct(procs, ProcedureLabel, ProcedureId);
  }

  /** For a table whose ids are distinct, the part choices list every part
    * once, in table order, each label mapping to its part's id. */
  lemma PartChoicesSpec(parts: seq<Part>)
    requires IdsIncrease(parts, PartId)
    ensures PartChoices(parts).1 == LabelsOf(parts, PartLabel)
    ensures forall i :: 0 <= i < |parts| ==>
      PartLabel(parts[i]) in PartChoices(parts).0 && PartChoices(parts).0[PartLabel(parts[i])] == parts[i].id
  {
    forall i, j | 0 <= i < j < |parts|
      ensures PartLabel(parts[i]) != PartLabel(parts[j])
    {
      if PartLabel(parts[i]) == PartLabel(parts[j]) {
        var p := parts[i];
        var q := parts[j];
        IdSuffixInjective(p.name + " \U{2013} " + p.machineModel.GetOr("Model not provided"),
                          q.name + " \U{2013} " + q.machineModel.GetOr("Model not provided"), p.id, q.id);
      }
    }
    ChoicesDistinct(parts, PartLabel, PartId);
  }

  // ---------------------------------------------------------------------------
  // The database and its inserts
  // ---------------------------------------------------------------------------

  const ProcedureFieldsRequired := "Name and category are required."
  const StepTextRequired := "Step description is required."
  const PartFieldsRequired := "Part name and location are required."
  const SerialTextRequired := "Serial number is required."
  const ScanFieldsRequired := "Fill Machine Tag and Technician before saving."

  /** The four tables. Timestamps and stored image paths come in as arguments. */
  class ManualDb {
    var procedures: seq<Procedure>
    var steps: seq<Step>
    var parts: seq<Part>
    var serials: seq<Serial>

    /** Ids are distinct in every table and step numbers grow within each procedure. */
    ghost predicate Valid()
      reads this
    {
      IdsIncrease(procedures, ProcedureId) && IdsIncrease(steps, StepId)
      && IdsIncrease(parts, PartId) && IdsIncrease(serials, SerialId)
      && NumbersIncrease(steps)
    }

    constructor()
      ensures Valid()
      ensures procedures == [] && steps == [] && parts == [] && serials == []
    {
      procedures := [];
      steps := [];
      parts := [];
      serials := [];
    }

    /** Saves a procedure when it has a name and a category. */
    method AddProcedure(name: string, category: string, machineModel: string,
                        description: string, createdAt: string) returns (r: Result<nat, string>)
      requires Valid()
      modifies this
      ensures Valid()
      ensures name == [] || category == [] ==>
        r == Err(ProcedureFieldsRequired) && procedures == old(procedures)
      ensures name != [] && category != [] ==>
        r == Ok(NextDocId(old(procedures), ProcedureId))
        && procedures == old(procedures) + [Procedure(r.value, name, Some(category), Some(machineModel),
                                                      Some(description), Some(createdAt))]
      ensures steps == old(steps) && parts == old(parts) && serials == old(serials)
    {
      if name == [] || category == [] {
        r := Err(ProcedureFieldsRequired);
      } else {
        var id := NextDocId(procedures, ProcedureId);
        var p := Procedure(id, name, Some(category), Some(machineModel), Some(description), Some(createdAt));
        AppendKeepsIds(procedures, ProcedureId, p);
        procedures := procedures + [p];
        r := Ok(id);
      }
    }

    /** Adds a step to procedure `pid` when it has text; the step is numbered
      * one past the procedure's largest number. The result is that number. */
    method AddStep(pid: nat, text: string, imagePath: Option<string>, createdAt: string)
      returns (r: Result<int, string>)
      requires Valid()
      modifies this
      ensures Valid()
      ensures text == [] ==> r == Err(StepTextRequired) && steps == old(steps)
      ensures text != [] ==>
        r == Ok(NextStepNumber(old(steps), pid))
        && steps == old(steps) + [NewStep(old(steps), pid, text, imagePath, createdAt)]
      ensures procedures == old(procedures) && parts == old(parts) && serials == old(serials)
    {
      if text == [] {
        r := Err(StepTextRequired);
      } else {
        var number := NextStepNumber(steps, pid);
        var s := NewStep(steps, pid, text, imagePath, createdAt);
        AppendKeepsIds(steps, StepId, s);
        AddStepKeepsNumbering(steps, pid, text, imagePath, createdAt);
        steps := steps + [s];
        r := Ok(number);
      }
    }

    /** Saves a part when it has a name and a location. */
    method AddPart(name: string, machineModel: string, location: string, notes: string,
                   imagePath: Option<string>, createdAt: string) returns (r: Result<nat, string>)
      requires Valid()
      modifies this
      ensures Valid()
      ensures name == [] || location == [] ==> r == Err(PartFieldsRequired) && parts == old(parts)
      ensures name != [] && location != [] ==>
        r == Ok(NextDocId(old(parts), PartId))
        && parts == old(parts) + [Part(r.value, name, Some(machineModel), location, notes, imagePath, createdAt)]
      ensures procedures == old(procedures) && steps == old(steps) && serials == old(serials)
    {
      if name == [] || location == [] {
        r := Err(PartFieldsRequired);
      } else {
        var id := NextDocId(parts, PartId);
        var p := Part(id, name, Some(machineModel), location, notes, imagePath, createdAt);
        AppendKeepsIds(parts, PartId, p);
        parts := parts + [p];
        r := Ok(id);
      }
    }

    /** Saves a typed-in serial number for part `partId` when the number is given. */
    method AddSerial(partId: nat, serialText: string, technician: string, machineTag: string,
                     notes: string, createdAt: string) returns (r: Result<nat, string>)
      requires Valid()
      modifies this
      ensures Valid()
      ensures serialText == [] ==> r == Err(SerialTextRequired) && serials == old(serials)
      ensures serialText != [] ==>
        r == Ok(NextDocId(old(serials), SerialId))
        && serials == old(serials) + [Serial(r.value, partId, serialText, technician, machineTag,
                                             notes, createdAt, "manual")]
      ensures procedures == old(procedures) && steps == old(steps) && parts == old(parts)
    {
      if serialText == [] {
        r := Err(SerialTextRequired);
      } else {
        var id := NextDocId(serials, SerialId);
        var s := Serial(id, partId, serialText, technician, machineTag, notes, createdAt, "manual");
        AppendKeepsIds(serials, SerialId, s);
        serials := serials + [s];
        r := Ok(id);
      }
    }

    /** Saves a scanned code as a serial number for part `partId` when the
      * machine tag and the technician are given. */
    method SaveScannedSerial(partId: nat, code: string, technician: string, machineTag: string,
                             notes: string, createdAt: string) returns (r: Result<nat, string>)
      requires Valid()
      modifies this
      ensures Valid()
      ensures machineTag == [] || technician == [] ==> r == Err(ScanFieldsRequired) && serials == old(serials)
      ensures machineTag != [] && technician != [] ==>
        r == Ok(NextDocId(old(serials), SerialId))
        && serials == old(serials) + [Serial(r.value, partId, code, technician, machineTag,
                                             notes, createdAt, "mobile_scanner")]
      ensures procedures == old(procedures) && steps == old(steps) && parts == old(parts)
    {
      if machineTag == [] || technician == [] {
        r := Err(ScanFieldsRequired);
      } else {
        var id := NextDocId(serials, SerialId);
        var s := Serial(id, partId, code, technician, machineTag, notes, createdAt, "mobile_scanner");
        AppendKeepsIds(serials, SerialId, s);
        serials := serials + [s];
        r := Ok(id);
      }
    }
  }
}

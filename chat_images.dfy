/**
 * pages/ChatBotV2.py: choosing the images that go with an answer of the
 * procedures assistant. A request that names a configured keyword gets that
 * entry's images directly; otherwise the step numbers in the generated answer
 * select images of the retrieved documents from the step image map. Also the
 * configuration fallback and the history window sent along with a question.
 */
module ChatImages {
  import opened Results
  import opened Text
  import opened Seqs

  /** One `image_query_map` entry: keywords to look for, a title, the images to show. */
  datatype QueryEntry = QueryEntry(keywords: seq<string>, title: string, images: seq<string>)

  /** `step_image_map`: document source, then step number, to image paths. */
  type StepImageMap = map<string, map<string, seq<string>>>

  /** The two tables the page reads from its configuration. */
  datatype Config = Config(stepImageMap: StepImageMap, imageQueryMap: seq<QueryEntry>)

  /**
   * The configuration file as found: absent, present but not readable as JSON,
   * or parsed, each table present or not.
   */
  datatype ConfigFile =
    | Missing
    | Unreadable
    | Parsed(stepImageMap: Option<StepImageMap>, imageQueryMap: Option<seq<QueryEntry>>)

  /** The configuration as loaded: the file's two tables, each empty when absent, or both empty when the file is missing or unreadable. */
  function LoadConfig(file: ConfigFile): (c: Config)
    ensures file.Missing? || file.Unreadable? ==> c.stepImageMap == map[] && c.imageQueryMap == []
    ensures file.Parsed? ==>
      c.stepImageMap == file.stepImageMap.GetOr(map[]) && c.imageQueryMap == file.imageQueryMap.GetOr([])
  {
    match file
    case Missing => Config(map[], [])
    case Unreadable => Config(map[], [])
    case Parsed(steps, queries) => Config(steps.GetOr(map[]), queries.GetOr([]))
  }

  // ---------------------------------------------------------------- direct image requests

  /** Some keyword of the entry occurs in the query. */
  predicate Matches(item: QueryEntry, q: string) {
    exists k :: k in item.keywords && Contains(q, k)
  }

  /** The index of the first entry from `from` on whose keywords occur in `q`, if any. */
  function FirstMatchFrom(entries: seq<QueryEntry>, q: string, from: nat): (r: Option<nat>)
    requires from <= |entries|
    ensures r.Some? ==> from <= r.value < |entries| && Matches(entries[r.value], q)
    ensures forall i :: from <= i < |entries| && (r.None? || i < r.value) ==> !Matches(entries[i], q)
    decreases |entries| - from
  {
    if from == |entries| then None
    else if Matches(entries[from], q) then Some(from)
    else FirstMatchFrom(entries, q, from + 1)
  }

  /** The entry the direct lookup picks: the first one that matches. */
  function FirstMatch(entries: seq<QueryEntry>, q: string): Option<nat>
  {
    FirstMatchFrom(entries, q, 0)
  }

  /**
   * The lookup is decided by the first matching entry: it is found exactly
   * when some entry matches, it matches, and no earlier entry does.
   */
  lemma FirstMatchSpec(entries: seq<QueryEntry>, q: string)
    ensures FirstMatch(entries, q).Some? <==> exists i :: 0 <= i < |entries| && Matches(entries[i], q)
    ensures FirstMatch(entries, q).Some? ==>
      var i := FirstMatch(entries, q).value;
      i < |entries| && Matches(entries[i], q) && forall j :: 0 <= j < i ==> !Matches(entries[j], q)
  {
  }

  /** Entries after the first match are never consulted: replacing them changes nothing. */
  lemma {:induction false} LaterEntriesIgnored(entries: seq<QueryEntry>, other: seq<QueryEntry>, q: string, from: nat)
    requires from <= |entries| && FirstMatchFrom(entries, q, from).Some?
    requires var i := FirstMatchFrom(entries, q, from).value; i < |other| && other[..i + 1] == entries[..i + 1]
    ensures from <= |other| && FirstMatchFrom(other, q, from) == FirstMatchFrom(entries, q, from)
    decreases |entries| - from
  {
    var i := FirstMatchFrom(entries, q, from).value;
    assert other[from] == other[..i + 1][from];
    if from < i {
      LaterEntriesIgnored(entries, other, q, from + 1);
    }
  }

  /** The answer text for a direct image request. */
  function DirectContent(title: string): string {
    "### \U{1F5BC}\U{FE0F} " + title + "\nHere is the image you requested."
  }

  /** The keyword test as a loop that stops at the first keyword found in the query. */
  method AnyKeyword(item: QueryEntry, q: string) returns (found: bool)
    ensures found == Matches(item, q)
  {
    found := false;
    for i := 0 to |item.keywords|
      invariant !found
      invariant forall j :: 0 <= j < i ==> !Contains(q, item.keywords[j])
    {
      if Contains(q, item.keywords[i]) {
        return true;
      }
    }
  }

  /** The loop over `IMAGE_QUERY_MAP` with its `direct_image_found` flag and `break`. */
  method FindDirectImage(entries: seq<QueryEntry>, q: string)
    returns (directImageFound: bool, responseContent: string, responseImages: seq<string>)
    ensures directImageFound == FirstMatch(entries, q).Some?
    ensures directImageFound ==>
      var item := entries[FirstMatch(entries, q).value];
      responseContent == DirectContent(item.title) && responseImages == item.images
    ensures !directImageFound ==> responseContent == "" && responseImages == []
  {
    directImageFound := false;
    responseContent := "";
    responseImages := [];
    for i := 0 to |entries|
      invariant !directImageFound && responseContent == "" && responseImages == []
      invariant FirstMatchFrom(entries, q, i) == FirstMatch(entries, q)
    {
      var item := entries[i];
      var any := AnyKeyword(item, q);
      if any {
        responseContent := "### \U{1F5BC}\U{FE0F} " + item.title + "\nHere is the image you requested.";
        responseImages := item.images;
        directImageFound := true;
        break;
      }
    }
  }

  // ---------------------------------------------------------------- step numbers

  /** The line is not blank and its first non-space character is a digit. */
  predicate IsNumberedLine(line: string) {
    Strip(line) != "" && IsDigit(LStrip(line)[0])
  }

  /** The step number a numbered line gives: the line, not trimmed, up to its first `.`. */
  function StepNumber(line: string): string {
    Split(line, '.')[0]
  }

  /** A numbered line's step number is the text before its first `.`, and it is never empty. */
  lemma StepNumberSpec(line: string)
    requires IsNumberedLine(line)
    ensures StepNumber(line) == TakeUntil(line, '.') && StepNumber(line) != ""
  {
    SplitHead(line, '.');
    LStripSpec(line);
    assert line[0] != '.' by {
      var l := LStrip(line);
      if |l| < |line| {
        assert IsSpace(line[0]);
      }
    }
  }

  /** `current_step` after the first `n` lines: the step of the last numbered line among them. */
  function StepAt(lines: seq<string>, n: nat): Option<string>
    requires n <= |lines|
  {
    if n == 0 then None
    else if IsNumberedLine(lines[n - 1]) then Some(StepNumber(lines[n - 1]))
    else StepAt(lines, n - 1)
  }

  /**
   * The current step is set by the last numbered line seen so far and kept
   * across the lines after it; before any numbered line there is none.
   */
  lemma {:induction false} StepAtSpec(lines: seq<string>, n: nat)
    requires n <= |lines|
    ensures (forall k :: 0 <= k < n ==> !IsNumberedLine(lines[k])) ==> StepAt(lines, n) == None
    ensures forall m: nat :: LastNumbered(lines, m, n) ==> StepAt(lines, n) == Some(StepNumber(lines[m]))
  {
    if n > 0 {
      StepAtSpec(lines, n - 1);
      forall m: nat | LastNumbered(lines, m, n) ensures StepAt(lines, n) == Some(StepNumber(lines[m])) {
        if m < n - 1 {
          assert !IsNumberedLine(lines[n - 1]);
          assert LastNumbered(lines, m, n - 1);
        }
      }
    }
  }

  /** Line `m` is the last numbered line among the first `n`. */
  predicate LastNumbered(lines: seq<string>, m: nat, n: nat)
    requires n <= |lines|
  {
    m < n && IsNumberedLine(lines[m]) && forall k :: m < k < n ==> !IsNumberedLine(lines[k])
  }

  /** `if current_step:` holds exactly when some numbered line has been seen. */
  lemma {:induction false} StepAtActive(lines: seq<string>, n: nat)
    requires n <= |lines|
    ensures Active(StepAt(lines, n)) <==> StepAt(lines, n).Some?
  {
    if n > 0 {
      if IsNumberedLine(lines[n - 1]) {
        StepNumberSpec(lines[n - 1]);
      } else {
        StepAtActive(lines, n - 1);
      }
    }
  }

  /** Python truthiness of `current_step`: set and not empty. */
  predicate Active(step: Option<string>) {
    step.Some? && step.value != ""
  }

  // ---------------------------------------------------------------- step images

  /** Image `x` is listed under document `src` for step `step`. */
  predicate Mapped(stepMap: StepImageMap, src: Option<string>, step: string, x: string) {
    src.Some? && src.value in stepMap && step in stepMap[src.value] && x in stepMap[src.value][step]
  }

  /** Image `x` is mapped, for the step current after line `i - 1`, under one of the retrieved documents. */
  predicate OfferedAt(lines: seq<string>, i: nat, sources: seq<Option<string>>, stepMap: StepImageMap, x: string)
    requires 1 <= i <= |lines|
  {
    Active(StepAt(lines, i)) && exists j :: 0 <= j < |sources| && Mapped(stepMap, sources[j], StepAt(lines, i).value, x)
  }

  /** The images mapped to document `src` and step `step` when both keys exist, else nothing. */
  function DocImages(src: Option<string>, step: string, stepMap: StepImageMap): seq<string> {
    if src.Some? && src.value in stepMap && step in stepMap[src.value] then stepMap[src.value][step] else []
  }

  /** The images offered for one step by the retrieved documents, in result order. */
  function SourceImages(sources: seq<Option<string>>, step: string, stepMap: StepImageMap): seq<string> {
    if sources == [] then []
    else SourceImages(sources[..|sources| - 1], step, stepMap) + DocImages(sources[|sources| - 1], step, stepMap)
  }

  /** One more retrieved document offers its images for the step. */
  lemma SourceImagesTake(sources: seq<Option<string>>, j: nat, step: string, stepMap: StepImageMap)
    requires j < |sources|
    ensures SourceImages(sources[..j + 1], step, stepMap) ==
      SourceImages(sources[..j], step, stepMap) + DocImages(sources[j], step, stepMap)
  {
    assert sources[..j + 1][..j] == sources[..j];
  }

  /** The images offered after line `n - 1`: those of the current step, if any. */
  function LineImages(lines: seq<string>, n: nat, sources: seq<Option<string>>, stepMap: StepImageMap): seq<string>
    requires 1 <= n <= |lines|
  {
    var step := StepAt(lines, n);
    if Active(step) then SourceImages(sources, step.value, stepMap) else []
  }

  /** Every image offered while scanning the first `n` lines, repeats included, in scan order. */
  function Candidates(lines: seq<string>, n: nat, sources: seq<Option<string>>, stepMap: StepImageMap): seq<string>
    requires n <= |lines|
  {
    if n == 0 then [] else Candidates(lines, n - 1, sources, stepMap) + LineImages(lines, n, sources, stepMap)
  }

  /** Every image offered while scanning the whole answer. */
  function OfferedImages(answer: string, sources: seq<Option<string>>, stepMap: StepImageMap): seq<string> {
    var lines := Split(answer, '\n');
    Candidates(lines, |lines|, sources, stepMap)
  }

  /** The step images of an answer: the offered images, each kept the first time. */
  function StepImages(answer: string, sources: seq<Option<string>>, stepMap: StepImageMap): seq<string> {
    Dedup(OfferedImages(answer, sources, stepMap))
  }

  /** Appends each image of `imgs` that is not yet listed. */
  method AppendNew(responseImages: seq<string>, imgs: seq<string>, ghost offered: seq<string>)
    returns (r: seq<string>)
    requires responseImages == Dedup(offered)
    ensures r == Dedup(offered + imgs)
  {
    r := responseImages;
    assert offered + imgs[..0] == offered;
    for k := 0 to |imgs|
      invariant r == Dedup(offered + imgs[..k])
    {
      var img := imgs[k];
      assert offered + imgs[..k + 1] == (offered + imgs[..k]) + [img];
      DedupSnoc(offered + imgs[..k], img);
      if img !in r {
        r := r + [img];
      }
    }
    assert imgs[..|imgs|] == imgs;
  }

  /** One retrieved document: its images for the step, when the map has both keys. */
  method AddDocImages(responseImages: seq<string>, src: Option<string>, step: string, stepMap: StepImageMap,
                      ghost offered: seq<string>, ghost acc: seq<string>)
    returns (r: seq<string>)
    requires responseImages == Dedup(offered + acc)
    ensures r == Dedup(offered + (acc + DocImages(src, step, stepMap)))
  {
    assert (offered + acc) + DocImages(src, step, stepMap) == offered + (acc + DocImages(src, step, stepMap));
    if src.Some? && src.value in stepMap && step in stepMap[src.value] {
      var imgs := stepMap[src.value][step];
      r := AppendNew(responseImages, imgs, offered + acc);
    } else {
      assert (offered + acc) + [] == offered + acc;
      r := responseImages;
    }
  }

  /** The loop over the retrieved documents for the current step. */
  method AddStepImages(responseImages: seq<string>, step: string, sources: seq<Option<string>>,
                       stepMap: StepImageMap, ghost offered: seq<string>)
    returns (r: seq<string>)
    requires responseImages == Dedup(offered)
    ensures r == Dedup(offered + SourceImages(sources, step, stepMap))
  {
    r := responseImages;
    ghost var acc: seq<string> := [];
    assert offered + acc == offered;
    for j := 0 to |sources|
      invariant acc == SourceImages(sources[..j], step, stepMap)
      invariant r == Dedup(offered + acc)
    {
      SourceImagesTake(sources, j, step, stepMap);
      r := AddDocImages(r, sources[j], step, stepMap, offered, acc);
      acc := acc + DocImages(sources[j], step, stepMap);
    }
    assert sources[..|sources|] == sources;
  }

  /** The step-image loop: scan the answer's lines, tracking the step, and append each new image. */
  method CollectStepImages(responseContent: string, sources: seq<Option<string>>, stepMap: StepImageMap)
    returns (responseImages: seq<string>)
    ensures responseImages == StepImages(responseContent, sources, stepMap)
  {
    var lines := Split(responseContent, '\n');
    var currentStep: Option<string> := None;
    responseImages := [];
    for i := 0 to |lines|
      invariant currentStep == StepAt(lines, i)
      invariant responseImages == Dedup(Candidates(lines, i, sources, stepMap))
    {
      var line := lines[i];
      if Strip(line) != "" && IsDigit(LStrip(line)[0]) {
        currentStep := Some(Split(line, '.')[0]);
      }
      ghost var before := Candidates(lines, i, sources, stepMap);
      if currentStep.Some? && currentStep.value != "" {
        responseImages := AddStepImages(responseImages, currentStep.value, sources, stepMap, before);
      } else {
        assert before + [] == before;
      }
    }
  }

  /** An image offered by the documents for a step comes from the map entry of one of them. */
  lemma {:induction false} SourceImagesFrom(sources: seq<Option<string>>, step: string, stepMap: StepImageMap, x: string)
    requires x in SourceImages(sources, step, stepMap)
    ensures exists j :: 0 <= j < |sources| && Mapped(stepMap, sources[j], step, x)
    decreases |sources|
  {
    var n := |sources| - 1;
    if x in SourceImages(sources[..n], step, stepMap) {
      SourceImagesFrom(sources[..n], step, stepMap, x);
      var j :| 0 <= j < n && Mapped(stepMap, sources[..n][j], step, x);
      assert sources[..n][j] == sources[j];
    } else {
      assert Mapped(stepMap, sources[n], step, x);
    }
  }

  /** An offered image belongs to the current step of some line, under one of the documents. */
  lemma {:induction false} CandidatesFrom(lines: seq<string>, n: nat, sources: seq<Option<string>>, stepMap: StepImageMap, x: string)
    requires n <= |lines| && x in Candidates(lines, n, sources, stepMap)
    ensures exists i :: 1 <= i <= n && OfferedAt(lines, i, sources, stepMap, x)
    decreases n
  {
    if x in Candidates(lines, n - 1, sources, stepMap) {
      CandidatesFrom(lines, n - 1, sources, stepMap, x);
    } else {
      SourceImagesFrom(sources, StepAt(lines, n).value, stepMap, x);
      assert OfferedAt(lines, n, sources, stepMap, x);
    }
  }

  /** Image `x` is offered at some line of the answer. */
  predicate OfferedInAnswer(answer: string, sources: seq<Option<string>>, stepMap: StepImageMap, x: string) {
    var lines := Split(answer, '\n');
    exists i :: 1 <= i <= |lines| && OfferedAt(lines, i, sources, stepMap, x)
  }

  /**
   * The collected images are exactly the offered ones, without repeats, in
   * the order in which they were first offered; each one is mapped, for the
   * step current at some line of the answer, under the source of a retrieved
   * document.
   */
  lemma StepImagesSpec(answer: string, sources: seq<Option<string>>, stepMap: StepImageMap)
    ensures NoDup(StepImages(answer, sources, stepMap))
    ensures forall x :: x in StepImages(answer, sources, stepMap) <==> x in OfferedImages(answer, sources, stepMap)
    ensures var r, c := StepImages(answer, sources, stepMap), OfferedImages(answer, sources, stepMap);
      forall i, j :: 0 <= i < j < |r| ==> r[i] in c && r[j] in c && FirstIndex(c, r[i]) < FirstIndex(c, r[j])
    ensures forall x :: x in StepImages(answer, sources, stepMap) ==> OfferedInAnswer(answer, sources, stepMap, x)
  {
    var lines := Split(answer, '\n');
    var c := Candidates(lines, |lines|, sources, stepMap);
    DedupSpec(c);
    forall x | x in StepImages(answer, sources, stepMap)
      ensures OfferedInAnswer(answer, sources, stepMap, x)
    {
      assert x in c;
      CandidatesFrom(lines, |lines|, sources, stepMap, x);
    }
  }

  /** An answer without a numbered line brings no step images. */
  lemma NoNumberedLineNoImages(answer: string, sources: seq<Option<string>>, stepMap: StepImageMap)
    requires forall line :: line in Split(answer, '\n') ==> !IsNumberedLine(line)
    ensures StepImages(answer, sources, stepMap) == []
  {
    var lines := Split(answer, '\n');
    assert forall k :: 0 <= k < |lines| ==> lines[k] in lines;
    NoStepNoCandidates(lines, |lines|, sources, stepMap);
  }

  lemma {:induction false} NoStepNoCandidates(lines: seq<string>, n: nat, sources: seq<Option<string>>, stepMap: StepImageMap)
    requires n <= |lines| && forall k :: 0 <= k < n ==> !IsNumberedLine(lines[k])
    ensures StepAt(lines, n) == None && Candidates(lines, n, sources, stepMap) == []
    decreases n
  {
    if n > 0 {
      NoStepNoCandidates(lines, n - 1, sources, stepMap);
    }
  }

  // ---------------------------------------------------------------- one answer

  /** A chat message: who wrote it and what it says. */
  datatype Message = Message(role: string, content: string)

  /** What the assistant shows for a prompt: its text and its images. */
  datatype Reply = Reply(content: string, images: seq<string>)

  /**
   * The reply to `prompt`: a directly requested image, or else the generated
   * answer with its step images. The retrieval results (their sources) and
   * the generated answer come from outside and are parameters.
   */
  function ReplyFor(config: Config, prompt: string, sources: seq<Option<string>>, llmAnswer: string): Reply {
    var q := Lower(prompt);
    match FirstMatch(config.imageQueryMap, q)
    case Some(i) =>
      var item := config.imageQueryMap[i];
      Reply(DirectContent(item.title), item.images)
    case None => Reply(llmAnswer, StepImages(llmAnswer, sources, config.stepImageMap))
  }

  /** The chat input handler, from the lower-cased prompt to the reply shown and saved. */
  method Respond(config: Config, prompt: string, sources: seq<Option<string>>, llmAnswer: string)
    returns (reply: Reply)
    ensures reply == ReplyFor(config, prompt, sources, llmAnswer)
  {
    var q := Lower(prompt);
    var directImageFound, responseContent, responseImages := FindDirectImage(config.imageQueryMap, q);
    if !directImageFound {
      responseContent := llmAnswer;
      responseImages := CollectStepImages(responseContent, sources, config.stepImageMap);
    }
    reply := Reply(responseContent, responseImages);
  }

  /**
   * On a direct match the reply is that entry's images whatever the retrieval
   * and the generated answer would have been; otherwise it is the generated
   * answer with the step images collected from it.
   */
  lemma ReplyDirectOrGenerated(config: Config, prompt: string, sources: seq<Option<string>>, llmAnswer: string,
                               sources': seq<Option<string>>, llmAnswer': string)
    ensures FirstMatch(config.imageQueryMap, Lower(prompt)).Some? ==>
      ReplyFor(config, prompt, sources, llmAnswer) == ReplyFor(config, prompt, sources', llmAnswer') &&
      ReplyFor(config, prompt, sources, llmAnswer).images ==
        config.imageQueryMap[FirstMatch(config.imageQueryMap, Lower(prompt)).value].images
    ensures FirstMatch(config.imageQueryMap, Lower(prompt)).None? ==>
      ReplyFor(config, prompt, sources, llmAnswer).content == llmAnswer &&
      ReplyFor(config, prompt, sources, llmAnswer).images == StepImages(llmAnswer, sources, config.stepImageMap)
  {
  }

  // ---------------------------------------------------------------- history

  /** The last five messages, or all of them when there are fewer. */
  function LastFive(messages: seq<Message>): (r: seq<Message>)
    ensures |r| <= 5 && |r| <= |messages|
    ensures r == messages[|messages| - |r|..]
    ensures |messages| <= 5 ==> r == messages
  {
    if |messages| <= 5 then messages else messages[|messages| - 5..]
  }

  /** A history line: the role, a colon and a space, then the content. */
  function HistoryLine(m: Message): string {
    m.role + ": " + m.content
  }

  /** The history lines of the last five messages, joined by line breaks. */
  function HistoryContext(messages: seq<Message>): string {
    var window := LastFive(messages);
    Join("\n", seq(|window|, i requires 0 <= i < |window| => HistoryLine(window[i])))
  }

  /**
   * When no message spans several lines, the history context reads back as
   * one line per message of the window, the most recent last: at most five.
   */
  lemma HistoryLines(messages: seq<Message>)
    requires messages != []
    requires forall m :: m in messages ==> '\n' !in m.role && '\n' !in m.content
    ensures var lines := Split(HistoryContext(messages), '\n');
      1 <= |lines| <= 5 && |lines| == |LastFive(messages)| &&
      forall i :: 0 <= i < |lines| ==> lines[i] == HistoryLine(messages[|messages| - |lines| + i])
  {
    var window := LastFive(messages);
    var parts := seq(|window|, i requires 0 <= i < |window| => HistoryLine(window[i]));
    forall i | 0 <= i < |parts| ensures '\n' !in parts[i] {
      assert window[i] in messages;
    }
    SplitJoin(parts, '\n');
  }
}

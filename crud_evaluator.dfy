/** The task dispatch and response normalisation of the CRUD evaluator:
    which record field is the query, the document and the ground truth for
    each task, which prompt template a task uses, how the model's answer is
    cut out of its raw completion, and which dataset group a task reads. */
module CrudEvaluator {

  import opened PyStr
  import opened CrudTask

  /** One dataset record: field name to text. */
  type Record = map<string, string>

  /** Python's `data[key]`, which raises `KeyError` for a missing key. */
  function Field(data: Record, key: string): (r: Result<string>)
    ensures r.Ok? <==> key in data
    ensures r.Ok? ==> r.value == data[key]
    ensures r.Err? ==> r.error == MissingKey(key)
  {
    if key in data then Ok(data[key]) else Err(MissingKey(key))
  }

  // -----------------------------------------------------------------------
  // Field extraction

  /** The ground truth the generated answer is scored against. The task is
      checked before the record is read, so an unknown task never raises
      `KeyError`. */
  function GetGroundTruthText(task: string, data: Record): (r: Result<string>)
    ensures r == Err(UnsupportedTask(task)) <==> task !in SupportedNames
    ensures r.Ok? ==> r.value in data.Values
    ensures r.Err? && task in SupportedNames ==> r.error.MissingKey? && r.error.key !in data
  {
    match Parse(task)
    case Summarization => Field(data, "summary")
    case QuestionAnswering => Field(data, "answers")
    case Continuation => Field(data, "continuing")
    case HallucinatedModified => Field(data, "hallucinatedMod")
    case Other(_) => Err(UnsupportedTask(task))
  }

  /** The query put into the prompt. */
  function GetQuery(task: string, data: Record): (r: Result<string>)
    ensures r == Err(UnsupportedTask(task)) <==> task !in SupportedNames
    ensures r.Ok? ==> r.value in data.Values
    ensures r.Err? && task in SupportedNames ==> r.error.MissingKey? && r.error.key !in data
  {
    match Parse(task)
    case Summarization => Field(data, "text")
    case QuestionAnswering => Field(data, "questions")
    case Continuation => Field(data, "beginning")
    case HallucinatedModified => Field(data, "newsBeginning")
    case Other(_) => Err(UnsupportedTask(task))
  }

  /** The supporting document put into the prompt. */
  function GetDocument(task: string, data: Record): (r: Result<string>)
    ensures r == Err(UnsupportedTask(task)) <==> task !in SupportedNames
    ensures r.Ok? ==> r.value in data.Values
    ensures r.Err? && task in SupportedNames ==> r.error.MissingKey? && r.error.key !in data
  {
    match Parse(task)
    case Summarization => Field(data, "text")
    case QuestionAnswering => Field(data, "news1")
    case Continuation => Field(data, "beginning")
    case HallucinatedModified => Field(data, "newsBeginning")
    case Other(_) => Err(UnsupportedTask(task))
  }

  /** The record fields each task reads, one entry per task. */
  datatype FieldNames = FieldNames(query: string, document: string, groundTruth: string)

  const FieldTable: map<string, FieldNames> := map[
    "summarization" := FieldNames("text", "text", "summary"),
    "question_answering" := FieldNames("questions", "news1", "answers"),
    "continuation" := FieldNames("beginning", "beginning", "continuing"),
    "hallucinated_modified" := FieldNames("newsBeginning", "newsBeginning", "hallucinatedMod")
  ]

  /** The three extractors read exactly the fields of the table, and fail
      with the unknown task for every name the table does not list. */
  lemma ExtractorsFollowTable(task: string, data: Record)
    ensures task in FieldTable <==> task in SupportedNames
    ensures task in FieldTable ==>
      && GetQuery(task, data) == Field(data, FieldTable[task].query)
      && GetDocument(task, data) == Field(data, FieldTable[task].document)
      && GetGroundTruthText(task, data) == Field(data, FieldTable[task].groundTruth)
    ensures task !in FieldTable ==>
      && GetQuery(task, data) == Err(UnsupportedTask(task))
      && GetDocument(task, data) == Err(UnsupportedTask(task))
      && GetGroundTruthText(task, data) == Err(UnsupportedTask(task))
  {
  }

  /** Query and document are the same field for every task except question
      answering, where the query is the questions and the document the news. */
  lemma QueryDocumentAgree(task: string, data: Record)
    ensures task != "question_answering" ==> GetQuery(task, data) == GetDocument(task, data)
    ensures GetQuery("question_answering", data) == Field(data, "questions")
    ensures GetDocument("question_answering", data) == Field(data, "news1")
  {
  }

  /** The fields a task's three extractors need. */
  function RequiredFields(task: string): set<string>
    requires task in FieldTable
  {
    var f := FieldTable[task];
    {f.query, f.document, f.groundTruth}
  }

  /** All three extractors accept the same task names: for a supported task
      and a record holding its fields all three succeed, and for any other
      name all three raise the unknown-task error and return nothing. */
  lemma ExtractorsAgreeOnTasks(task: string, data: Record)
    ensures task in SupportedNames && RequiredFields(task) <= data.Keys ==>
      GetQuery(task, data).Ok? && GetDocument(task, data).Ok? && GetGroundTruthText(task, data).Ok?
    ensures task !in SupportedNames <==> GetQuery(task, data) == Err(UnsupportedTask(task))
    ensures GetQuery(task, data) == Err(UnsupportedTask(task))
        <==> GetDocument(task, data) == Err(UnsupportedTask(task))
    ensures GetDocument(task, data) == Err(UnsupportedTask(task))
        <==> GetGroundTruthText(task, data) == Err(UnsupportedTask(task))
  {
    ExtractorsFollowTable(task, data);
  }

  // -----------------------------------------------------------------------
  // Template selection

  /** The prompt templates; their text is kept out of this model. */
  datatype Template = SummarizationTemplate | QuestionAnsweringTemplate | ContinuationTemplate

  /** The template of a task; `hallucinated_modified` has none. */
  function GetTemplate(task: string): (r: Result<Template>)
    ensures r.Ok? <==> task in SupportedNames[..3]
    ensures r.Err? ==> r.error == UnsupportedTask(task)
    ensures task == "summarization" ==> r == Ok(SummarizationTemplate)
    ensures task == "question_answering" ==> r == Ok(QuestionAnsweringTemplate)
    ensures task == "continuation" ==> r == Ok(ContinuationTemplate)
  {
    match Parse(task)
    case Summarization => Ok(SummarizationTemplate)
    case QuestionAnswering => Ok(QuestionAnsweringTemplate)
    case Continuation => Ok(ContinuationTemplate)
    case _ => Err(UnsupportedTask(task))
  }

  /** Different tasks get different templates. */
  lemma TemplatesDistinct(t1: string, t2: string)
    requires GetTemplate(t1).Ok? && GetTemplate(t2).Ok? && t1 != t2
    ensures GetTemplate(t1).value != GetTemplate(t2).value
  {
  }

  /** `hallucinated_modified` has no template although all three extractors
      accept it: a record of that task can be read but never prompted. */
  lemma HallucinatedHasNoTemplate(data: Record)
    requires "hallucinatedMod" in data && "newsBeginning" in data
    ensures GetTemplate("hallucinated_modified") == Err(UnsupportedTask("hallucinated_modified"))
    ensures GetQuery("hallucinated_modified", data) == Ok(data["newsBeginning"])
    ensures GetDocument("hallucinated_modified", data) == Ok(data["newsBeginning"])
    ensures GetGroundTruthText("hallucinated_modified", data) == Ok(data["hallucinatedMod"])
  {
  }

  // -----------------------------------------------------------------------
  // Response post-processing

  const OpenMarker := "<response>"
  const CloseMarker := "</response>"

  /** `result.split("<response>")[-1].split("</response>")[0].strip()`:
      the text after the last opening marker, up to the first closing marker
      after it, without surrounding whitespace. Never fails. */
  function PostProcess(result: string): string
  {
    Strip(Split(Last(Split(result, OpenMarker)), CloseMarker)[0])
  }

  lemma MarkersHeadUnique()
    ensures HeadUnique(OpenMarker) && HeadUnique(CloseMarker)
  {
  }

  /** The answer holds neither marker and has no whitespace at its ends. */
  lemma PostProcessClean(result: string)
    ensures !Contains(PostProcess(result), OpenMarker)
    ensures !Contains(PostProcess(result), CloseMarker)
    ensures NoEdgeSpace(PostProcess(result))
  {
    var tail := Last(Split(result, OpenMarker));
    SplitPiecesHaveNone(result, OpenMarker);
    var body := Split(tail, CloseMarker)[0];
    SplitPiecesHaveNone(tail, CloseMarker);
    FirstPiece(tail, CloseMarker);
    InfixHasNone(tail, OpenMarker, 0, |body|);
    assert tail[0..|body|] == body;
    StripHasNone(body, OpenMarker);
    StripHasNone(body, CloseMarker);
  }

  /** Post-processing an answer again changes nothing. */
  lemma PostProcessIdempotent(result: string)
    ensures PostProcess(PostProcess(result)) == PostProcess(result)
  {
    var r := PostProcess(result);
    PostProcessClean(result);
    SplitAbsent(r, OpenMarker);
    SplitAbsent(r, CloseMarker);
    StripNoEdgeSpace(r);
  }

  /** Without markers the whole completion, stripped, is the answer. */
  lemma PostProcessWithoutMarkers(result: string)
    requires !Contains(result, OpenMarker) && !Contains(result, CloseMarker)
    ensures PostProcess(result) == Strip(result)
  {
    SplitAbsent(result, OpenMarker);
    SplitAbsent(result, CloseMarker);
  }

  /** With only closing markers, the answer is the text before the first. */
  lemma PostProcessCloseOnly(before: string, after: string)
    requires !Contains(before + CloseMarker + after, OpenMarker)
    requires !Contains(before, CloseMarker)
    ensures PostProcess(before + CloseMarker + after) == Strip(before)
  {
    SplitAbsent(before + CloseMarker + after, OpenMarker);
    SplitAtFirst(before, CloseMarker, after);
  }

  /** With an opening marker and no closing marker after the last one, the
      answer is everything after that last opening marker. */
  lemma PostProcessOpenOnly(before: string, answer: string)
    requires !Contains(answer, OpenMarker) && !Contains(answer, CloseMarker)
    ensures PostProcess(before + OpenMarker + answer) == Strip(answer)
  {
    LastPieceAfterLast(before, OpenMarker, answer);
    SplitAbsent(answer, CloseMarker);
  }

  /** The answer is what stands between the last opening marker and the
      first closing marker after it, whatever comes before or after. */
  lemma PostProcessBetweenMarkers(before: string, answer: string, after: string)
    requires !Contains(answer + CloseMarker + after, OpenMarker)
    requires !Contains(answer, CloseMarker)
    ensures PostProcess(before + OpenMarker + answer + CloseMarker + after) == Strip(answer)
  {
    var tail := answer + CloseMarker + after;
    assert before + OpenMarker + answer + CloseMarker + after == before + OpenMarker + tail;
    LastPieceAfterLast(before, OpenMarker, tail);
    SplitAtFirst(answer, CloseMarker, after);
  }

  /** A closing marker between text without `<` holds no opening marker:
      the only `<` is the closing marker's own, followed by `/`. */
  lemma NoOpenAroundClose(before: string, after: string)
    requires '<' !in before && '<' !in after
    ensures !Contains(before + CloseMarker + after, OpenMarker)
  {
    var s := before + CloseMarker + after;
    if Contains(s, OpenMarker) {
      var j :| 0 <= j <= |s| - |OpenMarker| && OccursAt(s, OpenMarker, j);
      CharOfOccurrence(s, OpenMarker, j, 0);
      CharOfOccurrence(s, OpenMarker, j, 1);
      OnlyOpeningBracket(before, after, j);
    }
  }

  /** In `before + CloseMarker + after`, a `<` can only be the closing
      marker's first character. */
  lemma OnlyOpeningBracket(before: string, after: string, k: int)
    requires '<' !in before && '<' !in after
    requires 0 <= k < |before + CloseMarker + after|
    ensures (before + CloseMarker + after)[k] == '<' ==> k == |before|
  {
    var s := before + CloseMarker + after;
    if k < |before| {
      assert s[k] == before[k] && before[k] in before;
    } else if k < |before| + |CloseMarker| {
      assert s[k] == CloseMarker[k - |before|];
      MarkersHeadUnique();
    } else {
      assert s[k] == after[k - |before| - |CloseMarker|];
      assert after[k - |before| - |CloseMarker|] in after;
    }
  }

  /** Markers framing text without `<`: the framed text, stripped, is the
      answer, however much noise precedes the opening marker. */
  lemma PostProcessFramed(before: string, answer: string, after: string)
    requires '<' !in answer && '<' !in after
    ensures PostProcess(before + OpenMarker + answer + CloseMarker + after) == Strip(answer)
  {
    NoOpenAroundClose(answer, after);
    NoHeadNoOccurrence(answer, CloseMarker);
    PostProcessBetweenMarkers(before, answer, after);
  }

  /** A completion without `<` is only stripped. */
  lemma PostProcessUnbracketed(result: string)
    requires '<' !in result
    ensures PostProcess(result) == Strip(result)
  {
    NoHeadNoOccurrence(result, OpenMarker);
    NoHeadNoOccurrence(result, CloseMarker);
    PostProcessWithoutMarkers(result);
  }

  /** The answer is cut out from between the markers, dropping the noise
      before and the trailing text after. */
  lemma PostProcessExampleNoise(s: string)
    requires s == "noise<response>ANSWER</response>trailing"
    ensures PostProcess(s) == "ANSWER"
  {
    var before, answer, after := ExampleNoiseParts(s);
    PostProcessFramed(before, answer, after);
    StripNoEdgeSpace(answer);
  }

  lemma ExampleNoiseParts(s: string) returns (before: string, answer: string, after: string)
    requires s == "noise<response>ANSWER</response>trailing"
    ensures s == before + OpenMarker + answer + CloseMarker + after
    ensures answer == "ANSWER" && NoEdgeSpace(answer) && '<' !in answer && '<' !in after
  {
    before, answer, after := "noise", "ANSWER", "trailing";
    NoiseLiteral();
  }

  /** The example completion, cut at its two markers. */
  lemma NoiseLiteral()
    ensures "noise<response>ANSWER</response>trailing" == "noise" + OpenMarker + "ANSWER" + CloseMarker + "trailing"
  {
  }

  /** Without an opening marker, the text before the closing one is kept. */
  lemma PostProcessExampleCloseOnly(s: string)
    requires s == "ANSWER</response>"
    ensures PostProcess(s) == "ANSWER"
  {
    var answer, after := ExampleCloseOnlyParts(s);
    NoOpenAroundClose(answer, after);
    NoHeadNoOccurrence(answer, CloseMarker);
    PostProcessCloseOnly(answer, after);
    StripNoEdgeSpace(answer);
  }

  lemma ExampleCloseOnlyParts(s: string) returns (answer: string, after: string)
    requires s == "ANSWER</response>"
    ensures s == answer + CloseMarker + after
    ensures answer == "ANSWER" && NoEdgeSpace(answer) && '<' !in answer && '<' !in after
  {
    answer, after := "ANSWER", "";
  }

  /** Text without markers comes back as it is. */
  lemma PostProcessExamplePlain(s: string)
    requires s == "plain text, no markers"
    ensures PostProcess(s) == s
  {
    ExamplePlainParts(s);
    PostProcessUnbracketed(s);
    StripNoEdgeSpace(s);
  }

  lemma ExamplePlainParts(s: string)
    requires s == "plain text, no markers"
    ensures '<' !in s && NoEdgeSpace(s)
  {
  }

  // -----------------------------------------------------------------------
  // Dataset-group selection in `main`

  /** The dataset group a task reads. Only two tasks have one, although the
      error message advertises all four. */
  function DatasetKey(task: string): (r: Result<string>)
    ensures r.Ok? <==> task == "question_answering" || task == "summarization"
    ensures task == "question_answering" ==> r == Ok("questanswer_1doc")
    ensures task == "summarization" ==> r == Ok("event_summary")
    ensures r.Err? ==> r.error == UnsupportedTask(task)
  {
    if task == "question_answering" then Ok("questanswer_1doc")
    else if task == "summarization" then Ok("event_summary")
    else Err(UnsupportedTask(task))
  }

  /** `all_datasets[key]` for the task's group: question answering reads the
      single-document group, summarization the event-summary group; any
      other task is rejected before the map is consulted, and a group the
      file lacks is a `KeyError`. */
  function SelectDataset(task: string, all: map<string, seq<Record>>): (r: Result<seq<Record>>)
    ensures r.Ok? <==>
      || (task == "question_answering" && "questanswer_1doc" in all)
      || (task == "summarization" && "event_summary" in all)
    ensures r.Ok? && task == "question_answering" ==> r.value == all["questanswer_1doc"]
    ensures r.Ok? && task == "summarization" ==> r.value == all["event_summary"]
    ensures task != "question_answering" && task != "summarization" ==> r == Err(UnsupportedTask(task))
    ensures r.Err? && (task == "question_answering" || task == "summarization") ==>
      r.error.MissingKey? && r.error.key !in all
  {
    match DatasetKey(task)
    case Err(e) => Err(e)
    case Ok(key) => if key in all then Ok(all[key]) else Err(MissingKey(key))
  }

  /** `continuation` and `hallucinated_modified` are named as supported by
      the error message, yet have no dataset group. */
  lemma DatasetKeyNarrowerThanMessage()
    ensures DatasetKey("continuation").Err? && DatasetKey("hallucinated_modified").Err?
    ensures forall task :: task in SupportedNames && DatasetKey(task).Err? ==>
      task == "continuation" || task == "hallucinated_modified"
  {
  }

  /** The dataset-key branch, the template selector and the query extractor
      all accept a task exactly when it is question answering or
      summarization. */
  lemma RunnableTasks(task: string, data: Record)
    ensures (DatasetKey(task).Ok? && GetTemplate(task).Ok?
             && GetQuery(task, data) != Err(UnsupportedTask(task)))
        <==> task == "question_answering" || task == "summarization"
  {
  }
}

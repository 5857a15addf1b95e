# CRUD evaluator: task dispatch and response normalisation

A Dafny model of the CRUD benchmark evaluator in
`evals/evaluation/rag_eval/examples/eval_crud.py`. The model covers the part that
decides things without I/O:

- For each task, which field of a dataset record is the ground truth, the query
  and the document.
- Which prompt template a task uses.
- How the model's answer is cut out of a raw completion (`post_process`).
- Which dataset group `main` reads for a task.

Every task check compares `self.task` (or `task`) with exact string equality. An
unknown name raises `NotImplementedError` before any record field is read.

The model has three modules:

- `PyStr` (`pystr.dfy`): the Python `str` operations `post_process` uses, over
  `seq<char>`:
  - `split` on an explicit separator (left to right, non-overlapping).
  - The `[0]` and `[-1]` indexing of the resulting list.
  - `strip()` with the full `str.isspace` whitespace set.

  It also has `find`, on which `split` is built, and `join`, the inverse that
  pins `split` down. Each operation comes with the lemmas that characterise it:
  the first occurrence, join after split, the last piece, and strip as the
  unique trim.
- `CrudTask` (`task.dfy`):
  - The closed variant of task names, with `Parse`, which reads a name exactly as
    the if/elif chains compare it.
  - The two exceptions: `UnsupportedTask` for the `NotImplementedError` and
    `MissingKey` for the `KeyError` of `data[...]`.
  - The text of the unknown-task message.
- `CrudEvaluator` (`crud_evaluator.dfy`):
  - The three extractors, checked against a field table.
  - Template selection.
  - `post_process` and its characterisation.
  - The dataset-group branch of `main`.

A few facts the source leaves implicit are stated as lemmas:

- The error message names all four tasks as supported. Yet `main` has a dataset
  group only for `question_answering` and `summarization`
  (`DatasetKeyNarrowerThanMessage`).
- `hallucinated_modified` has all three fields but no template
  (`HallucinatedHasNoTemplate`).
- So the dataset-key branch, the template selector and the query extractor all
  accept a task exactly when it is question answering or summarization
  (`RunnableTasks`).

A record that lacks a field its task needs makes `data[key]` raise `KeyError`;
the extractors return `Err(MissingKey(key))`.

## Model

| member | source | states |
|---|---|---|
| CrudTask.Parse | evals/evaluation/rag_eval/examples/eval_crud.py:17-25 | the task read from a name gives the name back, and it is one of the four known tasks exactly when the name is one of the four strings the chain compares with |
| CrudTask.Name | evals/evaluation/rag_eval/examples/eval_crud.py:17-24 | no contract of its own: the string each task is compared with, and the name an unknown task carries; Parse's contract and ParseName make it the inverse of Parse |
| CrudTask.ParseName | evals/evaluation/rag_eval/examples/eval_crud.py:17-24 | every task the chain can tell apart is read back from its own name |
| CrudTask.UnknownTaskMessage | evals/evaluation/rag_eval/examples/eval_crud.py:26-29 | the unknown-task message starts with "Unknown task " followed by the offending name, and its length is that of prefix, name and fixed tail |
| CrudTask.MessageListsSupported | evals/evaluation/rag_eval/examples/eval_crud.py:27-28 | whatever the task name, the message contains every one of the four supported task names |
| CrudEvaluator.Field | evals/evaluation/rag_eval/examples/eval_crud.py:18 | Python's `data[key]`: succeeds exactly when the key is present, with its value, and otherwise raises `KeyError` for that key |
| CrudEvaluator.GetGroundTruthText | evals/evaluation/rag_eval/examples/eval_crud.py:16-30 | fails with the unknown-task error exactly for names outside the four; a success is a value of the record; any other failure is a `KeyError` for a key the record lacks |
| CrudEvaluator.GetQuery | evals/evaluation/rag_eval/examples/eval_crud.py:32-46 | the same three facts for the query |
| CrudEvaluator.GetDocument | evals/evaluation/rag_eval/examples/eval_crud.py:48-62 | the same three facts for the document |
| CrudEvaluator.ExtractorsFollowTable | evals/evaluation/rag_eval/examples/eval_crud.py:16-62 | for each of the four tasks the three extractors read exactly the field the per-task field table names; for any other name all three fail with the unknown-task error |
| CrudEvaluator.QueryDocumentAgree | evals/evaluation/rag_eval/examples/eval_crud.py:32-62 | query and document are the same field for every task except question answering, where they are `questions` and `news1` |
| CrudEvaluator.ExtractorsAgreeOnTasks | evals/evaluation/rag_eval/examples/eval_crud.py:16-62 | a supported task with all its fields present makes all three extractors succeed; the three extractors reject exactly the same names |
| CrudEvaluator.GetTemplate | evals/evaluation/rag_eval/examples/eval_crud.py:64-76 | succeeds exactly for summarization, question answering and continuation, giving each its own template; otherwise fails with the unknown-task error naming the task |
| CrudEvaluator.TemplatesDistinct | evals/evaluation/rag_eval/examples/eval_crud.py:64-70 | two different task names with templates get different templates |
| CrudEvaluator.HallucinatedHasNoTemplate | evals/evaluation/rag_eval/examples/eval_crud.py:16-76 | `hallucinated_modified` has no template, yet its query, document and ground truth are read from `newsBeginning`, `newsBeginning` and `hallucinatedMod` |
| CrudEvaluator.MarkersHeadUnique | evals/evaluation/rag_eval/examples/eval_crud.py:79 | the first character of each marker does not recur in it, so occurrences of a marker never overlap |
| CrudEvaluator.PostProcess | evals/evaluation/rag_eval/examples/eval_crud.py:79 | no contract of its own: it is the source expression written out; every input is covered by PostProcessClean and PostProcessIdempotent, and by PostProcessWithoutMarkers, PostProcessCloseOnly, PostProcessOpenOnly and PostProcessBetweenMarkers for the four arrangements of the markers |
| CrudEvaluator.PostProcessClean | evals/evaluation/rag_eval/examples/eval_crud.py:79 | for every completion, the answer contains neither marker and has no whitespace at either end |
| CrudEvaluator.PostProcessIdempotent | evals/evaluation/rag_eval/examples/eval_crud.py:79 | post-processing an answer a second time changes nothing |
| CrudEvaluator.PostProcessWithoutMarkers | evals/evaluation/rag_eval/examples/eval_crud.py:79 | a completion with neither marker comes back stripped and otherwise whole |
| CrudEvaluator.PostProcessCloseOnly | evals/evaluation/rag_eval/examples/eval_crud.py:79 | with no opening marker, the answer is the stripped text before the first closing marker |
| CrudEvaluator.PostProcessOpenOnly | evals/evaluation/rag_eval/examples/eval_crud.py:79 | with no closing marker after the last opening one, the answer is the stripped text after the last opening marker |
| CrudEvaluator.PostProcessBetweenMarkers | evals/evaluation/rag_eval/examples/eval_crud.py:79 | the answer is the stripped text between the last opening marker and the first closing marker after it, whatever precedes or follows |
| CrudEvaluator.PostProcessFramed | evals/evaluation/rag_eval/examples/eval_crud.py:79 | markers framing text free of `<` yield that text stripped, whatever noise precedes the opening marker |
| CrudEvaluator.PostProcessUnbracketed | evals/evaluation/rag_eval/examples/eval_crud.py:79 | a completion without `<` is only stripped |
| CrudEvaluator.PostProcessExampleNoise | evals/evaluation/rag_eval/examples/eval_crud.py:79 | `noise<response>ANSWER</response>trailing` gives `ANSWER` |
| CrudEvaluator.PostProcessExampleCloseOnly | evals/evaluation/rag_eval/examples/eval_crud.py:79 | `ANSWER</response>` gives `ANSWER` |
| CrudEvaluator.PostProcessExamplePlain | evals/evaluation/rag_eval/examples/eval_crud.py:79 | a plain sentence without markers or edge whitespace comes back unchanged |
| CrudEvaluator.DatasetKey | evals/evaluation/rag_eval/examples/eval_crud.py:138-146 | a dataset group exists exactly for question answering and summarization, named `questanswer_1doc` and `event_summary`; any other name fails with the unknown-task error naming it |
| CrudEvaluator.SelectDataset | evals/evaluation/rag_eval/examples/eval_crud.py:137-146 | succeeds exactly when the task is question answering and the file has `questanswer_1doc`, or summarization and it has `event_summary`, and then returns that group; other tasks are rejected before the map is read; a missing group is a `KeyError` for a key the map lacks |
| CrudEvaluator.DatasetKeyNarrowerThanMessage | evals/evaluation/rag_eval/examples/eval_crud.py:138-146 | among the four names the message advertises, exactly `continuation` and `hallucinated_modified` have no dataset group |
| CrudEvaluator.RunnableTasks | evals/evaluation/rag_eval/examples/eval_crud.py:137-155 | the dataset-key branch, the template selector and the query extractor all accept the task (the extractor may still report a missing field, but not an unknown task) exactly when it is question answering or summarization |
| PyStr.FindFrom | evals/evaluation/rag_eval/examples/eval_crud.py:79 | a found index is at or after the start and the separator occurs there |
| PyStr.FindFromFirst | evals/evaluation/rag_eval/examples/eval_crud.py:79 | no occurrence lies between the start and the found index, and no occurrence at all follows the start when nothing is found |
| PyStr.FindFirst | evals/evaluation/rag_eval/examples/eval_crud.py:79 | `find` succeeds exactly when the separator occurs, and then returns its first occurrence |
| PyStr.Split | evals/evaluation/rag_eval/examples/eval_crud.py:79 | `split` always returns at least one piece, so `[0]` and `[-1]` never fail |
| PyStr.JoinSplit | evals/evaluation/rag_eval/examples/eval_crud.py:79 | joining the pieces with the separator gives the string back |
| PyStr.SplitPiecesHaveNone | evals/evaluation/rag_eval/examples/eval_crud.py:79 | no piece contains the separator |
| PyStr.SplitAbsent | evals/evaluation/rag_eval/examples/eval_crud.py:79 | a string without the separator splits into itself alone |
| PyStr.SplitAtFirst | evals/evaluation/rag_eval/examples/eval_crud.py:79 | a string cut at its first occurrence of a marker splits into the text before it, then the split of the rest |
| PyStr.Last | evals/evaluation/rag_eval/examples/eval_crud.py:79 | no contract of its own: Python's `[-1]` on a non-empty list, the final element; LastPieceSuffix and LastPieceAfterLast state what it yields on a split |
| PyStr.FirstPiece | evals/evaluation/rag_eval/examples/eval_crud.py:79 | the first piece is the prefix before the first occurrence, or the whole string when there is none |
| PyStr.LastPieceSuffix | evals/evaluation/rag_eval/examples/eval_crud.py:79 | the last piece is a suffix of the string |
| PyStr.LastPieceAfterLast | evals/evaluation/rag_eval/examples/eval_crud.py:79 | for a marker whose occurrences cannot overlap, the last piece is exactly the text after the last occurrence |
| PyStr.IsSpace | evals/evaluation/rag_eval/examples/eval_crud.py:79 | no contract of its own: Python's `str.isspace()` for one character, as the set of code points 9-13, 28-32, U+0085, U+00A0, U+1680, U+2000-U+200A, U+2028, U+2029, U+202F, U+205F and U+3000 |
| PyStr.LStrip | evals/evaluation/rag_eval/examples/eval_crud.py:79 | the result is a suffix of the input that does not start with whitespace |
| PyStr.LStripCutsSpace | evals/evaluation/rag_eval/examples/eval_crud.py:79 | everything the front strip cuts is whitespace |
| PyStr.RStrip | evals/evaluation/rag_eval/examples/eval_crud.py:79 | the result is a prefix of the input that does not end with whitespace |
| PyStr.RStripCutsSpace | evals/evaluation/rag_eval/examples/eval_crud.py:79 | everything the back strip cuts is whitespace |
| PyStr.Strip | evals/evaluation/rag_eval/examples/eval_crud.py:79 | the result has no whitespace at either end and is the input with only whitespace cut from its two ends |
| PyStr.StripTrims | evals/evaluation/rag_eval/examples/eval_crud.py:79 | cutting front then back whitespace leaves such a trim |
| PyStr.StripUnique | evals/evaluation/rag_eval/examples/eval_crud.py:79 | any piece of the input cut from whitespace on both sides and without edge whitespace is the strip result |
| PyStr.StripNoEdgeSpace | evals/evaluation/rag_eval/examples/eval_crud.py:79 | strip leaves a string without edge whitespace unchanged |
| PyStr.StripHasNone | evals/evaluation/rag_eval/examples/eval_crud.py:79 | stripping never creates an occurrence of a separator |

## Left out

- `args_parser` (lines 82-126) is left out: command-line parsing is I/O.
- Reading the dataset file and the `FileNotFoundError` for a missing file (lines 131-135) are left out: file I/O. The parsed file is the `all` parameter of `SelectDataset`.
- Creating the output directory, building the output path, and the final print (lines 136, 147, 156) are left out: file-system and console I/O.
- `main`'s loop over `args.tasks` is not modelled as a loop. `SelectDataset` models one iteration. An unknown task aborts the whole loop, so the tasks after it never run.
- Constructing the evaluator, `Evaluator.evaluate` and `CRUD_Evaluator.ingest_docs` (lines 148-155) are not part of this model. They live in the `Evaluator` base class and call network endpoints.
- The prompt text of the `CRUDTemplate` templates is not part of this model. `Template` only tells the three templates apart.
- The text of Python's `KeyError` is not modelled. `MissingKey` carries only the missing key.
- The extractors return record values as strings. The source does not check the type of the JSON values it reads.
- PyStr.LastPieceAfterLast: stated only for separators whose first character does not recur in them (true of both response markers). For such separators occurrences cannot overlap, and that is what the proof needs.

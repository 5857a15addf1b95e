/** The evaluator's task identifier and the errors its dispatch raises. */
module CrudTask {

  import opened PyStr

  /** The four tasks of the CRUD benchmark, and any other name a caller may
      pass on the command line. */
  datatype Task =
    | Summarization
    | QuestionAnswering
    | Continuation
    | HallucinatedModified
    | Other(name: string)

  /** The task names the if/elif chains recognise, in their order. */
  const SupportedNames: seq<string> :=
    ["summarization", "question_answering", "continuation", "hallucinated_modified"]

  function Name(t: Task): string
  {
    match t
    case Summarization => "summarization"
    case QuestionAnswering => "question_answering"
    case Continuation => "continuation"
    case HallucinatedModified => "hallucinated_modified"
    case Other(name) => name
  }

  /** Reads a task name as the if/elif chains compare `self.task`: by exact
      string equality, so `"Summarization"` or `" summarization"` is unknown. */
  function Parse(name: string): (t: Task)
    ensures Name(t) == name
    ensures t.Other? <==> name !in SupportedNames
  {
    if name == "summarization" then Summarization
    else if name == "question_answering" then QuestionAnswering
    else if name == "continuation" then Continuation
    else if name == "hallucinated_modified" then HallucinatedModified
    else Other(name)
  }

  /** Every task the dispatch can tell apart is read back from its name. */
  lemma ParseName(t: Task)
    requires t.Other? ==> t.name !in SupportedNames
    ensures Parse(Name(t)) == t
  {
  }

  /** The exceptions of the dispatch. */
  datatype Error =
    | UnsupportedTask(task: string)  // NotImplementedError("Unknown task ...")
    | MissingKey(key: string)        // KeyError from indexing the record

  datatype Result<T> = Ok(value: T) | Err(error: Error)

  const MessagePrefix := "Unknown task "
  const MessageSuffix :=
    ", only support " + (SupportedNames[0] + (", " + (SupportedNames[1] + (", "
    + (SupportedNames[2] + (" and " + (SupportedNames[3] + ".")))))))

  /** The text of the `NotImplementedError` every unknown task raises: it
      starts by naming the offending task. */
  function UnknownTaskMessage(task: string): (m: string)
    ensures |m| == |MessagePrefix| + |task| + |MessageSuffix|
    ensures m[..|MessagePrefix|] == MessagePrefix
    ensures m[|MessagePrefix|..|MessagePrefix| + |task|] == task
  {
    MessagePrefix + task + MessageSuffix
  }

  /** The message goes on to list every supported task name. */
  lemma MessageListsSupported(task: string)
    ensures forall n :: n in SupportedNames ==> Contains(UnknownTaskMessage(task), n)
  {
    var n0, n1, n2, n3 := SupportedNames[0], SupportedNames[1], SupportedNames[2], SupportedNames[3];
    var r3 := n3 + ".";
    var r2 := n2 + (" and " + r3);
    var r1 := n1 + (", " + r2);
    var r0 := n0 + (", " + r1);
    ContainsSelf(n3);
    ContainsInLeft(n3, ".", n3);
    ContainsInRight(" and ", r3, n3);
    ContainsSelf(n2);
    ContainsInLeft(n2, " and " + r3, n2);
    ContainsInRight(n2, " and " + r3, n3);
    ContainsInRight(", ", r2, n2);
    ContainsInRight(", ", r2, n3);
    ContainsSelf(n1);
    ContainsInLeft(n1, ", " + r2, n1);
    forall n | n in [n2, n3] ensures Contains(r1, n) { ContainsInRight(n1, ", " + r2, n); }
    forall n | n in [n1, n2, n3] ensures Contains(", " + r1, n) { ContainsInRight(", ", r1, n); }
    ContainsSelf(n0);
    ContainsInLeft(n0, ", " + r1, n0);
    forall n | n in [n1, n2, n3] ensures Contains(r0, n) { ContainsInRight(n0, ", " + r1, n); }
    forall n | n in SupportedNames ensures Contains(UnknownTaskMessage(task), n) {
      ContainsInRight(", only support ", r0, n);
      ContainsInRight(MessagePrefix + task, ", only support " + r0, n);
    }
  }


}

/**
 * The submit handler and the conversation history. On a submit with files
 * and a question, every file is extracted, the texts are truncated to the
 * 4000 budget, one prompt is sent to the completion service, and the
 * stripped first generation is appended with its question to the history.
 * A missing input, an exception while extracting, or a failing generation
 * leaves the history as it was.
 */
module Session {
  import opened Wrappers
  import opened Strings
  import opened Extraction
  import opened Truncation

  const ModelName := "command"
  const MissingInputMessage := "Please upload documents and enter a question."
  const GenerationErrorPrefix := "Error generating answer: "
  /** The message of the IndexError that `response.generations[0]` raises on an empty list. */
  const NoGenerationMessage := "list index out of range"

  /** One question and its answer, in submission order. */
  datatype Entry = Entry(question: string, answer: string)

  /** The arguments of the completion call. */
  datatype GenerationRequest = GenerationRequest(
    model: string, prompt: string, maxTokens: int, temperature: real, stopSequences: seq<string>)

  /**
   * How one press of the button ends: not pressed, refused for missing
   * input (with the message shown), aborted by an exception raised while extracting, failed
   * generation (with the message shown), or answered.
   */
  datatype SubmitOutcome =
    | NotSubmitted
    | MissingInput(report: string)
    | ExtractionRaised(error: string)
    | GenerationFailed(report: string)
    | Answered(answer: string)

  function Prompt(context: string, question: string): string
  {
    "Documents: " + context + "\nQuestion: " + question + "\nAnswer:"
  }

  function Request(context: string, question: string, maxTokens: int, temperature: real): GenerationRequest
  {
    GenerationRequest(ModelName, Prompt(context, question), maxTokens, temperature, ["\n"])
  }

  /** `[extract_text(f) for f in uploaded_files]`: the first exception aborts the whole list. */
  function ExtractAll(files: seq<UploadedFile>, parsers: Parsers): (r: Result<seq<string>>)
    ensures r.Ok? ==> |r.value| == |files|
  {
    if files == [] then Ok([])
    else
      match ExtractText(Some(files[0]), parsers)
      case Err(e) => Err(e)
      case Ok(first) =>
        match ExtractAll(files[1..], parsers)
        case Err(e) => Err(e)
        case Ok(rest) => Ok([first.text] + rest)
  }

  /**
   * The list holds every file's extracted text, in upload order, exactly
   * when no file's extraction raises.
   */
  lemma {:induction false} ExtractAllContents(files: seq<UploadedFile>, parsers: Parsers)
    ensures ExtractAll(files, parsers).Ok? <==>
      forall k :: 0 <= k < |files| ==> ExtractText(Some(files[k]), parsers).Ok?
    ensures ExtractAll(files, parsers).Ok? ==>
      forall k :: 0 <= k < |files| ==> ExtractAll(files, parsers).value[k] == ExtractText(Some(files[k]), parsers).value.text
  {
    if files != [] {
      ExtractAllContents(files[1..], parsers);
      assert forall k :: 1 <= k < |files| ==> files[1..][k - 1] == files[k];
    }
  }

  /** When file f is the first whose extraction raises, the whole list raises that exception. */
  lemma {:induction false} ExtractAllFirstRaise(files: seq<UploadedFile>, parsers: Parsers, f: nat)
    requires f < |files| && ExtractText(Some(files[f]), parsers).Err?
    requires forall k :: 0 <= k < f ==> ExtractText(Some(files[k]), parsers).Ok?
    ensures ExtractAll(files, parsers) == Err(ExtractText(Some(files[f]), parsers).error)
  {
    if f > 0 {
      assert files[1..][f - 1] == files[f];
      assert forall k :: 0 <= k < f - 1 ==> files[1..][k] == files[k + 1];
      ExtractAllFirstRaise(files[1..], parsers, f - 1);
    }
  }

  /** `response.generations[0].text.strip()`, with the exception it may raise. */
  function AnswerOf(response: Result<seq<string>>): Result<string>
  {
    match response
    case Err(e) => Err(e)
    case Ok(generations) =>
      if generations == [] then Err(NoGenerationMessage) else Ok(Strip(generations[0]))
  }

  /** The outcome of one run of the submit block. */
  function SubmitOutcomeOf(
    submitted: bool, files: seq<UploadedFile>, question: string, maxTokens: int, temperature: real,
    parsers: Parsers, generate: GenerationRequest -> Result<seq<string>>): SubmitOutcome
  {
    if !submitted then NotSubmitted
    else if files == [] || question == "" then MissingInput(MissingInputMessage)
    else
      match ExtractAll(files, parsers)
      case Err(e) => ExtractionRaised(e)
      case Ok(texts) =>
        var context := Join(Pieces(texts, DefaultMaxTotalLength), "\n");
        match AnswerOf(generate(Request(context, question, maxTokens, temperature)))
        case Err(e) => GenerationFailed(GenerationErrorPrefix + e)
        case Ok(answer) => Answered(answer)
  }

  /** The history after one submission. */
  function Recorded(history: seq<Entry>, question: string, outcome: SubmitOutcome): (h: seq<Entry>)
    ensures history <= h
  {
    if outcome.Answered? then history + [Entry(question, outcome.answer)] else history
  }

  /**
   * A submission is answered exactly when the button was pressed, files and
   * a question are present, no extraction raised, and the service returned
   * at least one generation; the answer is that generation, stripped.
   */
  lemma AnsweredExactlyWhen(
    submitted: bool, files: seq<UploadedFile>, question: string, maxTokens: int, temperature: real,
    parsers: Parsers, generate: GenerationRequest -> Result<seq<string>>)
    ensures var outcome := SubmitOutcomeOf(submitted, files, question, maxTokens, temperature, parsers, generate);
      outcome.Answered? <==>
        (submitted && files != [] && question != "" && ExtractAll(files, parsers).Ok?
         && var response := generate(Request(Join(Pieces(ExtractAll(files, parsers).value, DefaultMaxTotalLength), "\n"),
                                             question, maxTokens, temperature));
            response.Ok? && response.value != [] && outcome.answer == Strip(response.value[0]))
  {
  }

  /** An answer never begins or ends with whitespace. */
  lemma AnswerIsStripped(
    submitted: bool, files: seq<UploadedFile>, question: string, maxTokens: int, temperature: real,
    parsers: Parsers, generate: GenerationRequest -> Result<seq<string>>)
    requires SubmitOutcomeOf(submitted, files, question, maxTokens, temperature, parsers, generate).Answered?
    ensures var a := SubmitOutcomeOf(submitted, files, question, maxTokens, temperature, parsers, generate).answer;
      a == [] || (!IsSpace(a[0]) && !IsSpace(a[|a| - 1]))
  {
    var texts := ExtractAll(files, parsers).value;
    var context := Join(Pieces(texts, DefaultMaxTotalLength), "\n");
    var response := generate(Request(context, question, maxTokens, temperature));
    StripIsStripped(response.value[0]);
  }

  /** The history after a run of submissions, each given by its question and outcome. */
  function RecordAll(history: seq<Entry>, submissions: seq<(string, SubmitOutcome)>): seq<Entry>
    decreases submissions
  {
    if submissions == [] then history
    else RecordAll(Recorded(history, submissions[0].0, submissions[0].1), submissions[1..])
  }

  /** The entries of the answered submissions, in submission order. */
  function AnsweredEntries(submissions: seq<(string, SubmitOutcome)>): seq<Entry>
  {
    if submissions == [] then []
    else
      var (q, outcome) := submissions[0];
      (if outcome.Answered? then [Entry(q, outcome.answer)] else []) + AnsweredEntries(submissions[1..])
  }

  /** How many of the submissions were answered. */
  function AnsweredCount(submissions: seq<(string, SubmitOutcome)>): nat
  {
    if submissions == [] then 0
    else (if submissions[0].1.Answered? then 1 else 0) + AnsweredCount(submissions[1..])
  }

  /**
   * Over any run of submissions the history keeps every earlier entry
   * unchanged and gains one entry per answered submission, in submission order.
   */
  lemma {:induction false} HistoryIsAppendOnly(history: seq<Entry>, submissions: seq<(string, SubmitOutcome)>)
    ensures RecordAll(history, submissions) == history + AnsweredEntries(submissions)
    ensures |RecordAll(history, submissions)| == |history| + AnsweredCount(submissions)
    decreases submissions
  {
    if submissions == [] {
      assert history + [] == history;
    } else {
      var (q, outcome) := submissions[0];
      var next := Recorded(history, q, outcome);
      HistoryIsAppendOnly(next, submissions[1..]);
      var added := if outcome.Answered? then [Entry(q, outcome.answer)] else [];
      assert next == history + added;
      assert history + added + AnsweredEntries(submissions[1..]) == history + (added + AnsweredEntries(submissions[1..]));
    }
  }

  /** The session's conversation history, which only ever grows at its end. */
  class ConversationLog {
    var entries: seq<Entry>

    constructor ()
      ensures entries == []
    {
      entries := [];
    }

    method Append(entry: Entry)
      modifies this
      ensures entries == old(entries) + [entry]
    {
      entries := entries + [entry];
    }
  }

  /** What the list comprehension yields for the first files, followed by the rest. */
  function Prepend(texts: seq<string>, rest: Result<seq<string>>): Result<seq<string>>
  {
    match rest
    case Err(e) => Err(e)
    case Ok(more) => Ok(texts + more)
  }

  /** Nothing prepended leaves the list as it is. */
  lemma PrependNothing(rest: Result<seq<string>>)
    ensures Prepend([], rest) == rest
  {
    if rest.Ok? {
      assert [] + rest.value == rest.value;
    }
  }

  /** Prepending two runs of texts one after the other prepends their concatenation. */
  lemma PrependTwice(a: seq<string>, b: seq<string>, rest: Result<seq<string>>)
    ensures Prepend(a, Prepend(b, rest)) == Prepend(a + b, rest)
  {
    if rest.Ok? {
      assert a + (b + rest.value) == (a + b) + rest.value;
    }
  }

  /** `[extract_text(f) for f in uploaded_files]`, one file after another. */
  method ExtractAllOf(files: seq<UploadedFile>, parsers: Parsers) returns (r: Result<seq<string>>)
    ensures r == ExtractAll(files, parsers)
  {
    var documentTexts: seq<string> := [];
    var i := 0;
    assert files[0..] == files;
    PrependNothing(ExtractAll(files, parsers));
    while i < |files|
      invariant 0 <= i <= |files|
      invariant ExtractAll(files, parsers) == Prepend(documentTexts, ExtractAll(files[i..], parsers))
    {
      assert files[i..][1..] == files[i + 1..];
      var e := ExtractTextOf(Some(files[i]), parsers);
      if e.Err? {
        return Err(e.error);
      }
      assert ExtractAll(files[i..], parsers) == Prepend([e.value.text], ExtractAll(files[i + 1..], parsers));
      PrependTwice(documentTexts, [e.value.text], ExtractAll(files[i + 1..], parsers));
      documentTexts := documentTexts + [e.value.text];
      i := i + 1;
    }
    assert files[i..] == [];
    assert documentTexts + [] == documentTexts;
    r := Ok(documentTexts);
  }

  /** One run of the `if submit_button:` block against the session's log. */
  method Submit(
    log: ConversationLog, submitted: bool, files: seq<UploadedFile>, question: string,
    maxTokens: int, temperature: real,
    parsers: Parsers, generate: GenerationRequest -> Result<seq<string>>)
    returns (outcome: SubmitOutcome)
    modifies log
    ensures outcome == SubmitOutcomeOf(submitted, files, question, maxTokens, temperature, parsers, generate)
    ensures log.entries == Recorded(old(log.entries), question, outcome)
  {
    if !submitted {
      return NotSubmitted;
    }
    if files == [] || question == "" {
      return MissingInput(MissingInputMessage);
    }
    var documentTexts := ExtractAllOf(files, parsers);
    if documentTexts.Err? {
      return ExtractionRaised(documentTexts.error);
    }
    var truncatedDocumentText := TruncateDocuments(documentTexts.value, DefaultMaxTotalLength);
    var response := generate(Request(truncatedDocumentText, question, maxTokens, temperature));
    if response.Err? {
      return GenerationFailed(GenerationErrorPrefix + response.error);
    }
    if response.value == [] {
      return GenerationFailed(GenerationErrorPrefix + NoGenerationMessage);
    }
    var answer := Strip(response.value[0]);
    log.Append(Entry(question, answer));
    outcome := Answered(answer);
  }
}

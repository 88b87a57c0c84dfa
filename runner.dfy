/** The grading loop of test_wokeai.py: every question is sent to the model,
    the reply (or, when the call fails, a fixed sentinel text) is graded
    against the expected answer, and one record per question is appended
    in question order. The model call is a parameter of the loop. */
module Runner {
  import opened Results
  import opened Grader
  import Text

  /** One row of the question sheets: its Statement and Expected columns. */
  datatype Question = Question(statement: string, expected: string)

  /** What one model call gives back: the reply text, or a failure of any
      kind (the exception generate_llm_response catches). */
  datatype Reply = Answered(text: string) | Failed

  /** The text generate_llm_response returns when the call raises. */
  const Sentinel: string := "Error generating response"

  /** generate_llm_response, around the call itself. */
  function ResponseText(reply: Reply): (actual: string)
    ensures reply.Failed? ==> actual == Sentinel
    ensures reply.Answered? ==> actual == reply.text
  {
    match reply
    case Answered(text) => text
    case Failed => Sentinel
  }

  /** The loop of the main block. `invoke(i, prompt, model)` stands for the
      i-th call to the model, so replies may differ from call to call. */
  method Run(questions: seq<Question>, model: string, invoke: (nat, string, string) -> Reply)
    returns (results: seq<GradedRecord>, correctCount: nat)
    ensures |results| == |questions|
    ensures forall i :: 0 <= i < |questions| ==>
      results[i].statement == questions[i].statement &&
      results[i].expected == questions[i].expected &&
      results[i].actual == ResponseText(invoke(i, questions[i].statement, model))
    ensures forall i :: 0 <= i < |results| ==>
      results[i].correct == IsCorrectResponse(results[i].actual, results[i].expected)
    ensures correctCount == CountCorrect(results) && correctCount <= |questions|
  {
    results := [];
    var i := 0;
    while i < |questions|
      invariant 0 <= i <= |questions| && |results| == i
      invariant forall k :: 0 <= k < i ==>
        results[k].statement == questions[k].statement &&
        results[k].expected == questions[k].expected &&
        results[k].actual == ResponseText(invoke(k, questions[k].statement, model))
      invariant forall k :: 0 <= k < i ==>
        results[k].correct == IsCorrectResponse(results[k].actual, results[k].expected)
    {
      var q := questions[i];
      var actualOutput := ResponseText(invoke(i, q.statement, model));
      var isCorrect := IsCorrectResponse(actualOutput, q.expected);
      var record := GradedRecord(q.statement, q.expected, actualOutput, isCorrect);
      assert record.statement == questions[i].statement && record.expected == questions[i].expected;
      assert record.correct == IsCorrectResponse(record.actual, record.expected);
      results := results + [record];
      i := i + 1;
    }
    correctCount := CountCorrect(results);
  }

  /** A failed call is graded like any other answer; the sentinel holds no
      "y", so against the expected answer "Yes" it is graded incorrect. */
  lemma SentinelFailsYes()
    ensures !IsCorrectResponse(Sentinel, "Yes")
  {
    SentinelLacksYes();
    WordsOfYes();
  }

  lemma SentinelLacksYes()
    ensures !Text.Contains(Text.Lower(Sentinel), "yes")
  {
    assert Text.UpperChar('y') == 'Y';
    Text.LowerLacks(Sentinel, 'y');
    Text.MissingFirstChar(Text.Lower(Sentinel), "yes");
  }
}

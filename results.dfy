/** The graded record that the runner of test_wokeai.py writes and that
    graph_wokeai.py reads back, with two folds over a list of them: the
    number of correct records, which both files compute, and the failed
    records, which graph_wokeai.py selects. */
module Results {

  /** One graded question: the dict with keys statement, expected, actual
      and correct. */
  datatype GradedRecord = GradedRecord(statement: string, expected: string, actual: string, correct: bool)

  /** The sum of the correct flags, a true flag counting as one. */
  function CountCorrect(results: seq<GradedRecord>): (n: nat)
    ensures n <= |results|
    ensures n == |results| <==> forall i :: 0 <= i < |results| ==> results[i].correct
    ensures n == 0 <==> forall i :: 0 <= i < |results| ==> !results[i].correct
  {
    if results == [] then 0
    else
      var last := results[|results| - 1];
      var n := CountCorrect(results[..|results| - 1]) + (if last.correct then 1 else 0);
      assert forall i :: 0 <= i < |results| - 1 ==> results[..|results| - 1][i] == results[i];
      n
  }

  /** The records whose correct flag is false, in input order. */
  function Failures(results: seq<GradedRecord>): (failed: seq<GradedRecord>)
    ensures |failed| <= |results|
    ensures forall r :: r in failed <==> r in results && !r.correct
  {
    if results == [] then []
    else
      var last := results[|results| - 1];
      var front := results[..|results| - 1];
      assert results == front + [last];
      Failures(front) + (if last.correct then [] else [last])
  }

  /** The failure list holds exactly the records that are not correct. */
  lemma {:induction false} FailuresCount(results: seq<GradedRecord>)
    ensures |Failures(results)| == |results| - CountCorrect(results)
  {
    if results != [] {
      FailuresCount(results[..|results| - 1]);
    }
  }

  /** The failure list of a concatenation is the concatenation of the
      failure lists, so it keeps the records in input order. */
  lemma {:induction false} FailuresAppend(a: seq<GradedRecord>, b: seq<GradedRecord>)
    ensures Failures(a + b) == Failures(a) + Failures(b)
    decreases |b|
  {
    if b != [] {
      var front, last := b[..|b| - 1], b[|b| - 1];
      assert (a + b)[..|a + b| - 1] == a + front;
      assert (a + b)[|a + b| - 1] == last;
      FailuresAppend(a, front);
      assert Failures(b) == Failures(front) + (if last.correct then [] else [last]);
    } else {
      assert a + b == a;
    }
  }

  /** Counting correct records adds up over a concatenation. */
  lemma {:induction false} CountCorrectAppend(a: seq<GradedRecord>, b: seq<GradedRecord>)
    ensures CountCorrect(a + b) == CountCorrect(a) + CountCorrect(b)
    decreases |b|
  {
    if b != [] {
      var front := b[..|b| - 1];
      assert (a + b)[..|a + b| - 1] == a + front;
      CountCorrectAppend(a, front);
      assert b == front + [b[|b| - 1]];
    } else {
      assert a + b == a;
    }
  }
}

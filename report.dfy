/** print_failed_questions of graph_wokeai.py, without the printing: which
    rows the failure table shows and how each cell is shaped and coloured. */
module FailureReport {
  import opened Results
  import Text
  import Answers

  /** Width of the statement column before the ellipsis. */
  const Width: nat := 47
  const Ellipsis: string := "..."

  /** Index of the first occurrence of `c` in `s`, if any. */
  function FirstIndex(s: string, c: char): (i: nat)
    requires c in s
    ensures i < |s| && s[i] == c && c !in s[..i]
  {
    if s[0] == c then 0
    else
      assert c in s[1..] by {
        var k :| 0 <= k < |s| && s[k] == c;
        assert s[1..][k - 1] == c;
      }
      var i := 1 + FirstIndex(s[1..], c);
      assert s[1..i] == s[1..][..i - 1];
      assert s[..i] == [s[0]] + s[1..i];
      i
  }

  /** The statement cut just after its first question mark, or the whole
      statement when it has none. */
  function CutAtQuestion(statement: string): (cut: string)
    ensures '?' in statement ==>
      0 < |cut| <= |statement| && cut == statement[..|cut|] &&
      cut[|cut| - 1] == '?' && '?' !in cut[..|cut| - 1]
    ensures '?' !in statement ==> cut == statement
  {
    if '?' in statement then
      var i := FirstIndex(statement, '?');
      statement[..i] + ['?']
    else statement
  }

  /** The statement shortened to 47 characters and an ellipsis when it is
      longer than 47 characters. */
  function Truncate(statement: string): (shown: string)
    ensures |shown| <= Width + |Ellipsis|
    ensures |statement| <= Width ==> shown == statement
    ensures |statement| > Width ==>
      |shown| == Width + |Ellipsis| && shown[..Width] == statement[..Width] && shown[Width..] == Ellipsis
  {
    if |statement| > Width then statement[..Width] + Ellipsis else statement
  }

  /** The statement cell of a failure row. */
  function ShapeStatement(statement: string): (shown: string)
    ensures |shown| <= 50
  {
    Truncate(CutAtQuestion(statement))
  }

  /** The shaped statement starts like the statement itself: up to its
      first question mark when it has one, shortened to 47 characters and
      an ellipsis when that is longer than 47. */
  lemma ShapeIsPrefix(statement: string)
    ensures var shown := ShapeStatement(statement);
      var cut := CutAtQuestion(statement);
      (|cut| <= Width ==> shown == cut) &&
      (|cut| > Width ==> shown == statement[..Width] + Ellipsis)
  {
    var cut := CutAtQuestion(statement);
    if |cut| > Width {
      if '?' in statement {
        assert cut[..Width] == statement[..|cut|][..Width];
      }
    }
  }

  /** The two colours of the terminal output. */
  datatype Colour = Green | Red

  /** Green for an affirmative normalized answer, red for anything else. */
  function ColourOf(normalized: string): Colour {
    if normalized == "yes" then Green else Red
  }

  /** One printed line of the failure table. */
  datatype FailureRow = FailureRow(statement: string, expected: string, expectedColour: Colour,
                                   actual: string, actualColour: Colour)

  /** The cells of one failed record: its shaped statement and its two
      normalized answers, each green when affirmative and red otherwise. */
  function RowOf(r: GradedRecord): (row: FailureRow)
    ensures row.statement == ShapeStatement(r.statement) && |row.statement| <= 50
    ensures row.expected == Answers.NormalizeAnswer(r.expected)
    ensures row.actual == Answers.NormalizeAnswer(r.actual)
    ensures row.expectedColour == Green <==> row.expected == "yes"
    ensures row.actualColour == Green <==> row.actual == "yes"
    ensures row.expectedColour == Green <==> Text.Lower(Text.Strip(r.expected)) in Answers.YesForms
    ensures row.actualColour == Green <==> Text.Lower(Text.Strip(r.actual)) in Answers.YesForms
  {
    var expected := Answers.NormalizeAnswer(r.expected);
    var actual := Answers.NormalizeAnswer(r.actual);
    FailureRow(ShapeStatement(r.statement), expected, ColourOf(expected), actual, ColourOf(actual))
  }

  /** What print_failed_questions shows: a notice when nothing failed,
      otherwise one row per failed record. */
  datatype Listing = NoFailedQuestions | Table(rows: seq<FailureRow>)

  function FailedListing(results: seq<GradedRecord>): (listing: Listing)
    ensures listing == NoFailedQuestions <==> forall i :: 0 <= i < |results| ==> results[i].correct
    ensures listing.Table? ==>
      |listing.rows| == |Failures(results)| > 0 &&
      forall i :: 0 <= i < |listing.rows| ==> listing.rows[i] == RowOf(Failures(results)[i])
  {
    var failed := Failures(results);
    FailuresCount(results);
    if failed == [] then NoFailedQuestions
    else Table(seq(|failed|, i requires 0 <= i < |failed| => RowOf(failed[i])))
  }
}

/** is_correct_response of test_wokeai.py: an answer is graded correct when
    some whitespace-separated word of the lower-cased expected answer
    occurs anywhere in the lower-cased actual answer. */
module Grader {
  import opened Text

  /** Whether some word, lower-cased, occurs in the text: false on no words
      at all. */
  function AnyWordIn(words: seq<string>, text: string): (r: bool)
    ensures r <==> exists j :: 0 <= j < |words| && Contains(text, Lower(words[j]))
  {
    if words == [] then false
    else if Contains(text, Lower(words[0])) then true
    else
      var r := AnyWordIn(words[1..], text);
      assert r <==> exists j :: 0 <= j < |words| && Contains(text, Lower(words[j])) by {
        if exists j :: 0 <= j < |words| && Contains(text, Lower(words[j])) {
          var j :| 0 <= j < |words| && Contains(text, Lower(words[j]));
          assert j > 0 && words[1..][j - 1] == words[j];
        }
        if r {
          var j :| 0 <= j < |words[1..]| && Contains(text, Lower(words[1..][j]));
          assert words[j + 1] == words[1..][j];
        }
      }
      r
  }

  /** is_correct_response: an answer is correct exactly when some word of
      the lower-cased expected answer occurs in the lower-cased actual one. */
  function IsCorrectResponse(actual: string, expected: string): (correct: bool)
    ensures correct <==> exists w :: w in Split(Lower(expected)) && Contains(Lower(actual), w)
  {
    var words := Split(Lower(expected));
    WordsAreLower(expected);
    var correct := AnyWordIn(words, Lower(actual));
    assert correct ==> exists w :: w in words && Contains(Lower(actual), w) by {
      if correct {
        var j :| 0 <= j < |words| && Contains(Lower(actual), Lower(words[j]));
        assert words[j] in words;
      }
    }
    correct
  }

  /** The words split from lower-cased text are lower-cased already, so
      lower-casing each word again, as the source does, changes nothing. */
  lemma WordsAreLower(expected: string)
    ensures forall j :: 0 <= j < |Split(Lower(expected))| ==>
      Lower(Split(Lower(expected))[j]) == Split(Lower(expected))[j]
  {
    var words := Split(Lower(expected));
    forall j | 0 <= j < |words| ensures Lower(words[j]) == words[j] {
      SplitWordsOccur(Lower(expected));
      LowerIdempotent(expected);
      LowerFixedInside(Lower(expected), words[j]);
    }
  }

  /** What occurs inside lower-cased text is lower-cased itself. */
  lemma LowerFixedInside(s: string, k: string)
    requires Lower(s) == s && Contains(s, k)
    ensures Lower(k) == k
  {
    var i :| 0 <= i <= |s| - |k| && OccursAt(s, k, i);
    forall j | 0 <= j < |k| ensures LowerChar(k[j]) == k[j] {
      assert k[j] == s[i + j];
      assert Lower(s)[i + j] == LowerChar(s[i + j]);
    }
  }

  /** An expected answer that is empty or only whitespace has no words, so
      no answer at all is graded correct against it. */
  lemma BlankExpectedNeverCorrect(actual: string, expected: string)
    requires AllSpace(expected)
    ensures !IsCorrectResponse(actual, expected)
  {
    LowerKeepsSpace(expected);
  }

  /** Conversely, an expected answer with some non-whitespace character is
      met by itself: grading is not vacuously false there. */
  lemma ExpectedMeetsItself(expected: string)
    requires !AllSpace(expected)
    ensures IsCorrectResponse(expected, expected)
  {
    LowerKeepsSpace(expected);
    var words := Split(Lower(expected));
    assert words != [];
    SplitWordsOccur(Lower(expected));
    LowerIdempotent(expected);
    LowerFixedInside(Lower(expected), words[0]);
    assert Contains(Lower(expected), Lower(words[0]));
  }

  /** Re-casing either argument does not change the grade. */
  lemma GradeIgnoresCase(actual: string, expected: string)
    ensures IsCorrectResponse(Upper(actual), expected) == IsCorrectResponse(actual, expected)
    ensures IsCorrectResponse(actual, Upper(expected)) == IsCorrectResponse(actual, expected)
    ensures IsCorrectResponse(Lower(actual), expected) == IsCorrectResponse(actual, expected)
    ensures IsCorrectResponse(actual, Lower(expected)) == IsCorrectResponse(actual, expected)
  {
    LowerOfUpper(actual);
    LowerOfUpper(expected);
    LowerIdempotent(actual);
    LowerIdempotent(expected);
  }

  /** Saying more never loses a correct grade: text added before or after
      a correct answer keeps it correct. */
  lemma GradeMonotone(prefix: string, actual: string, suffix: string, expected: string)
    requires IsCorrectResponse(actual, expected)
    ensures IsCorrectResponse(prefix + actual + suffix, expected)
  {
    var words := Split(Lower(expected));
    var j :| 0 <= j < |words| && Contains(Lower(actual), Lower(words[j]));
    ContainsInWider(Lower(prefix), Lower(actual), Lower(suffix), Lower(words[j]));
    LowerConcat(prefix, actual);
    LowerConcat(prefix + actual, suffix);
    assert Lower(prefix + actual + suffix) == Lower(prefix) + Lower(actual) + Lower(suffix);
  }

  /** Two grading examples: a hedged affirmative is correct
      for "Yes"; an empty answer is not. */
  lemma GradeExampleHedgedYes()
    ensures IsCorrectResponse("I think yes, definitely", "Yes")
  {
    WordsOfYes();
    HedgedHoldsYes();
    var ws := Split(Lower("Yes"));
    assert Contains(Lower("I think yes, definitely"), Lower(ws[0]));
  }

  lemma WordsOfYes()
    ensures Split(Lower("Yes")) == ["yes"]
    ensures Lower("yes") == "yes"
  {
    LowerIdempotent("Yes");
    assert Lower("Yes") == "yes" by {
      assert LowerChar('Y') == 'y';
    }
    SplitOneWord("yes");
  }

  lemma HedgedHoldsYes()
    ensures Contains(Lower("I think yes, definitely"), "yes")
  {
    var s := "I think yes, definitely";
    var a := Lower(s);
    assert a[8] == LowerChar(s[8]) == 'y';
    assert a[9] == LowerChar(s[9]) == 'e';
    assert a[10] == LowerChar(s[10]) == 's';
    assert a[8..11] == "yes";
    assert OccursAt(a, "yes", 8);
  }

  lemma GradeExampleEmptyAnswer()
    ensures !IsCorrectResponse("", "yes")
  {
    assert Lower("") == "";
  }
}

/** The counting inside plot_results of graph_wokeai.py: the overall split
    into correct and incorrect, the per-emotion table built over five fixed
    phrases, the per-category summary grouped from one row per record, and
    the failed records. The drawing itself is not modelled. */
module Aggregator {
  import opened Text
  import opened Results
  import Categorizer

  // ---------------------------------------------------------------------
  // Overall performance
  // ---------------------------------------------------------------------

  /** The two slices of the overall pie. */
  datatype Overall = Overall(correct: nat, incorrect: nat)

  /** The overall split: the number of correct records, and the rest as
      incorrect. */
  function OverallCounts(results: seq<GradedRecord>): (o: Overall)
    ensures o.correct + o.incorrect == |results|
    ensures o.incorrect == |Failures(results)|
    ensures o.correct == |results| <==> Failures(results) == []
  {
    FailuresCount(results);
    var c := CountCorrect(results);
    Overall(c, |results| - c)
  }

  // ---------------------------------------------------------------------
  // Performance by emotion
  // ---------------------------------------------------------------------

  /** The five phrases, in the order of the bar chart. */
  const Emotions: seq<string> := ["be proud", "feel guilty", "feel jelous", "be ashamed", "be empathic"]

  /** One entry of emotion_data. */
  datatype EmotionRow = EmotionRow(emotion: string, correct: nat, total: nat)

  /** The phrase occurs in the lower-cased statement of the record. */
  predicate Mentions(r: GradedRecord, phrase: string) {
    Contains(Lower(r.statement), phrase)
  }

  /** The records whose lower-cased statement holds the phrase, in input
      order. */
  function Matching(results: seq<GradedRecord>, phrase: string): (m: seq<GradedRecord>)
    ensures |m| <= |results|
    ensures forall r :: r in m <==> r in results && Mentions(r, phrase)
  {
    if results == [] then []
    else
      var last := results[|results| - 1];
      var front := results[..|results| - 1];
      assert results == front + [last];
      Matching(front, phrase) + (if Mentions(last, phrase) then [last] else [])
  }

  /** Selecting from a concatenation selects from each part, in order:
      every matching record is kept once, where it stood. */
  lemma {:induction false} MatchingAppend(a: seq<GradedRecord>, b: seq<GradedRecord>, phrase: string)
    ensures Matching(a + b, phrase) == Matching(a, phrase) + Matching(b, phrase)
    decreases |b|
  {
    if b != [] {
      var front, last := b[..|b| - 1], b[|b| - 1];
      assert (a + b)[..|a + b| - 1] == a + front;
      assert (a + b)[|a + b| - 1] == last;
      MatchingAppend(a, front, phrase);
    } else {
      assert a + b == a;
    }
  }

  /** The number of records selected for a phrase is the number of records
      whose statement holds it, duplicates included. */
  lemma MatchingLength(results: seq<GradedRecord>, phrase: string)
    ensures |Matching(results, phrase)| == HitsOver([phrase], results)
  {
    EmotionTotalsCountHits([phrase], results);
    assert [phrase][..0] == [];
  }

  /** The loop over the five phrases that appends one row per phrase. */
  method EmotionData(results: seq<GradedRecord>) returns (rows: seq<EmotionRow>)
    ensures |rows| == |Emotions|
    ensures forall i :: 0 <= i < |rows| ==> rows[i].emotion == Emotions[i]
    ensures forall i :: 0 <= i < |rows| ==>
      rows[i].total == |Matching(results, Emotions[i])| &&
      rows[i].correct == CountCorrect(Matching(results, Emotions[i]))
    ensures forall i :: 0 <= i < |rows| ==> rows[i].correct <= rows[i].total <= |results|
  {
    rows := [];
    var k := 0;
    while k < |Emotions|
      invariant 0 <= k <= |Emotions| && |rows| == k
      invariant forall i :: 0 <= i < k ==> rows[i].emotion == Emotions[i]
      invariant forall i :: 0 <= i < k ==>
        rows[i].total == |Matching(results, Emotions[i])| &&
        rows[i].correct == CountCorrect(Matching(results, Emotions[i]))
    {
      var emotion := Emotions[k];
      var emotionResults := Matching(results, emotion);
      var correctCount := CountCorrect(emotionResults);
      rows := rows + [EmotionRow(emotion, correctCount, |emotionResults|)];
      k := k + 1;
    }
  }

  /** How many of `phrases` occur in the record's lower-cased statement. */
  function Hits(phrases: seq<string>, r: GradedRecord): (n: nat)
    ensures n <= |phrases|
  {
    if phrases == [] then 0
    else Hits(phrases[..|phrases| - 1], r) + (if Mentions(r, phrases[|phrases| - 1]) then 1 else 0)
  }

  /** Sum of the per-phrase totals. */
  function TotalOver(phrases: seq<string>, results: seq<GradedRecord>): nat {
    if phrases == [] then 0
    else TotalOver(phrases[..|phrases| - 1], results) + |Matching(results, phrases[|phrases| - 1])|
  }

  /** Sum, over the records, of the number of phrases each one holds. */
  function HitsOver(phrases: seq<string>, results: seq<GradedRecord>): nat {
    if results == [] then 0
    else HitsOver(phrases, results[..|results| - 1]) + Hits(phrases, results[|results| - 1])
  }

  /** The emotion totals add up to the number of phrase occurrences, not to
      the number of records: each record is counted once per phrase its
      statement holds. */
  lemma {:induction false} EmotionTotalsCountHits(phrases: seq<string>, results: seq<GradedRecord>)
    ensures TotalOver(phrases, results) == HitsOver(phrases, results)
    decreases |results|
  {
    if results != [] {
      var front := results[..|results| - 1];
      var last := results[|results| - 1];
      EmotionTotalsCountHits(phrases, front);
      TotalOverStep(phrases, front, last);
      assert front + [last] == results;
    } else {
      TotalOverEmpty(phrases);
    }
  }

  lemma {:induction false} TotalOverEmpty(phrases: seq<string>)
    ensures TotalOver(phrases, []) == 0
  {
    if phrases != [] {
      TotalOverEmpty(phrases[..|phrases| - 1]);
    }
  }

  /** Adding a record adds its hit count to the sum of the totals. */
  lemma {:induction false} TotalOverStep(phrases: seq<string>, front: seq<GradedRecord>, last: GradedRecord)
    ensures TotalOver(phrases, front + [last]) == TotalOver(phrases, front) + Hits(phrases, last)
  {
    var results := front + [last];
    assert results[..|results| - 1] == front;
    if phrases != [] {
      TotalOverStep(phrases[..|phrases| - 1], front, last);
    }
  }

  /** When every statement holds exactly one of the phrases, the emotion
      totals do add up to the number of records. */
  lemma {:induction false} OneHitEachSumsToCount(phrases: seq<string>, results: seq<GradedRecord>)
    requires forall i :: 0 <= i < |results| ==> Hits(phrases, results[i]) == 1
    ensures TotalOver(phrases, results) == |results|
  {
    EmotionTotalsCountHits(phrases, results);
    HitsOverAtMost(phrases, results);
    HitsOverAtLeast(phrases, results);
  }

  /** A statement holding none of the phrases, among statements holding at
      most one each, leaves the emotion totals short of the record count. */
  lemma {:induction false} MissingPhraseUndercounts(phrases: seq<string>, results: seq<GradedRecord>, j: nat)
    requires j < |results| && Hits(phrases, results[j]) == 0
    requires forall i :: 0 <= i < |results| ==> Hits(phrases, results[i]) <= 1
    ensures TotalOver(phrases, results) < |results|
  {
    EmotionTotalsCountHits(phrases, results);
    HitsOverBelow(phrases, results, j);
  }

  lemma {:induction false} HitsOverAtMost(phrases: seq<string>, results: seq<GradedRecord>)
    requires forall i :: 0 <= i < |results| ==> Hits(phrases, results[i]) <= 1
    ensures HitsOver(phrases, results) <= |results|
  {
    if results != [] {
      var front := results[..|results| - 1];
      assert forall i :: 0 <= i < |front| ==> front[i] == results[i];
      HitsOverAtMost(phrases, front);
    }
  }

  lemma {:induction false} HitsOverAtLeast(phrases: seq<string>, results: seq<GradedRecord>)
    requires forall i :: 0 <= i < |results| ==> Hits(phrases, results[i]) >= 1
    ensures HitsOver(phrases, results) >= |results|
  {
    if results != [] {
      var front := results[..|results| - 1];
      assert forall i :: 0 <= i < |front| ==> front[i] == results[i];
      HitsOverAtLeast(phrases, front);
    }
  }

  lemma {:induction false} HitsOverBelow(phrases: seq<string>, results: seq<GradedRecord>, j: nat)
    requires j < |results| && Hits(phrases, results[j]) == 0
    requires forall i :: 0 <= i < |results| ==> Hits(phrases, results[i]) <= 1
    ensures HitsOver(phrases, results) < |results|
  {
    var front := results[..|results| - 1];
    assert forall i :: 0 <= i < |front| ==> front[i] == results[i];
    if j == |results| - 1 {
      HitsOverAtMost(phrases, front);
    } else {
      HitsOverBelow(phrases, front, j);
    }
  }

  // ---------------------------------------------------------------------
  // Performance by attribute (category)
  // ---------------------------------------------------------------------

  /** One entry of attribute_data. */
  datatype AttributeRow = AttributeRow(category: string, correct: bool)

  /** The loop that categorizes every record and appends one row each. */
  method AttributeData(results: seq<GradedRecord>) returns (data: seq<AttributeRow>)
    ensures |data| == |results|
    ensures forall i :: 0 <= i < |results| ==>
      data[i].category == Categorizer.Categorize(results[i].statement) &&
      data[i].correct == results[i].correct
    ensures forall i :: 0 <= i < |data| ==> data[i].category in Categorizer.KnownTags
  {
    data := [];
    for k := 0 to |results|
      invariant |data| == k
      invariant forall i :: 0 <= i < k ==>
        data[i].category == Categorizer.Categorize(results[i].statement) &&
        data[i].correct == results[i].correct
    {
      var category := Categorizer.Categorize(results[k].statement);
      data := data + [AttributeRow(category, results[k].correct)];
    }
  }

  /** A (correct, total) pair of the grouped summary. */
  datatype Tally = Tally(correct: nat, total: nat)

  /** Rows of `data` in the given category. */
  function CountIn(data: seq<AttributeRow>, category: string): (n: nat)
    ensures n <= |data|
  {
    if data == [] then 0
    else CountIn(data[..|data| - 1], category) + (if data[|data| - 1].category == category then 1 else 0)
  }

  /** Correct rows of `data` in the given category. */
  function CorrectIn(data: seq<AttributeRow>, category: string): (n: nat)
    ensures n <= CountIn(data, category)
  {
    if data == [] then 0
    else
      var last := data[|data| - 1];
      CorrectIn(data[..|data| - 1], category) + (if last.category == category && last.correct then 1 else 0)
  }

  /** The pandas grouping by category, summing the correct flags and
      counting the rows: one entry per category that occurs. */
  function GroupByCategory(data: seq<AttributeRow>): (summary: map<string, Tally>)
    ensures forall c :: c in summary <==> exists i :: 0 <= i < |data| && data[i].category == c
    ensures forall c :: c in summary ==>
      summary[c] == Tally(CorrectIn(data, c), CountIn(data, c))
  {
    if data == [] then map[]
    else
      var front := data[..|data| - 1];
      var last := data[|data| - 1];
      var m := GroupByCategory(front);
      var t := if last.category in m then m[last.category] else Tally(0, 0);
      var summary := m[last.category := Tally(t.correct + (if last.correct then 1 else 0), t.total + 1)];
      assert forall c :: c in summary <==> exists i :: 0 <= i < |data| && data[i].category == c by {
        forall c ensures c in summary <==> exists i :: 0 <= i < |data| && data[i].category == c {
          if c in m {
            var i :| 0 <= i < |front| && front[i].category == c;
            assert data[i] == front[i];
          }
          if exists i :: 0 <= i < |data| && data[i].category == c {
            var i :| 0 <= i < |data| && data[i].category == c;
            if i < |front| {
              assert front[i] == data[i];
            }
          }
        }
      }
      assert last.category !in m ==> CountIn(front, last.category) == 0 by {
        if CountIn(front, last.category) != 0 {
          var i := CountedRowExists(front, last.category);
        }
      }
      summary
  }

  /** A category counted at least once has a row in it. */
  lemma {:induction false} CountedRowExists(data: seq<AttributeRow>, category: string) returns (i: nat)
    requires CountIn(data, category) > 0
    ensures i < |data| && data[i].category == category
  {
    var front := data[..|data| - 1];
    if data[|data| - 1].category == category {
      i := |data| - 1;
    } else {
      i := CountedRowExists(front, category);
    }
  }

  /** Sum of the totals of the given tags in a summary, absent tags
      counting zero. */
  function TotalsOf(summary: map<string, Tally>, tags: seq<string>): nat {
    if tags == [] then 0
    else TotalsOf(summary, tags[..|tags| - 1]) + (if tags[|tags| - 1] in summary then summary[tags[|tags| - 1]].total else 0)
  }

  /** Sum of the row counts of the given tags. */
  function CountsOf(data: seq<AttributeRow>, tags: seq<string>): nat {
    if tags == [] then 0
    else CountsOf(data, tags[..|tags| - 1]) + CountIn(data, tags[|tags| - 1])
  }

  /** How often `tag` appears in `tags`. */
  function Occurrences(tags: seq<string>, tag: string): nat {
    if tags == [] then 0
    else Occurrences(tags[..|tags| - 1], tag) + (if tags[|tags| - 1] == tag then 1 else 0)
  }

  lemma {:induction false} CountsOfStep(data: seq<AttributeRow>, row: AttributeRow, tags: seq<string>)
    ensures CountsOf(data + [row], tags) == CountsOf(data, tags) + Occurrences(tags, row.category)
  {
    assert (data + [row])[..|data|] == data;
    if tags != [] {
      CountsOfStep(data, row, tags[..|tags| - 1]);
    }
  }

  lemma {:induction false} OccursOnce(tags: seq<string>, tag: string)
    requires tag in tags
    requires forall i, j :: 0 <= i < j < |tags| ==> tags[i] != tags[j]
    ensures Occurrences(tags, tag) == 1
  {
    var front := tags[..|tags| - 1];
    if tags[|tags| - 1] == tag {
      OccursNever(front, tag);
    } else {
      OccursOnce(front, tag);
    }
  }

  lemma {:induction false} OccursNever(tags: seq<string>, tag: string)
    requires tag !in tags
    ensures Occurrences(tags, tag) == 0
  {
    if tags != [] {
      OccursNever(tags[..|tags| - 1], tag);
    }
  }

  lemma {:induction false} CountsOfEmpty(tags: seq<string>)
    ensures CountsOf([], tags) == 0
  {
    if tags != [] {
      CountsOfEmpty(tags[..|tags| - 1]);
    }
  }

  /** With distinct tags that cover every row, the per-tag counts add up to
      the number of rows. */
  lemma {:induction false} CountsCover(data: seq<AttributeRow>, tags: seq<string>)
    requires forall i, j :: 0 <= i < j < |tags| ==> tags[i] != tags[j]
    requires forall i :: 0 <= i < |data| ==> data[i].category in tags
    ensures CountsOf(data, tags) == |data|
    decreases |data|
  {
    if data == [] {
      CountsOfEmpty(tags);
    } else {
      var front := data[..|data| - 1];
      var last := data[|data| - 1];
      CountsCover(front, tags);
      CountsOfStep(front, last, tags);
      OccursOnce(tags, last.category);
      assert front + [last] == data;
    }
  }

  /** The summary's totals over the given tags are the row counts. */
  lemma {:induction false} TotalsAreCounts(data: seq<AttributeRow>, tags: seq<string>)
    ensures TotalsOf(GroupByCategory(data), tags) == CountsOf(data, tags)
  {
    if tags != [] {
      TotalsAreCounts(data, tags[..|tags| - 1]);
      var c := tags[|tags| - 1];
      if c !in GroupByCategory(data) && CountIn(data, c) != 0 {
        var i := CountedRowExists(data, c);
      }
    }
  }

  /** The grouped per-category summary, built as plot_results builds it:
      one categorized row per record, then grouped. Its totals over the
      seven known categories add up to the number of records. */
  method CategorySummary(results: seq<GradedRecord>) returns (summary: map<string, Tally>)
    ensures forall c :: c in summary <==>
      exists i :: 0 <= i < |results| && Categorizer.Categorize(results[i].statement) == c
    ensures forall c :: c in summary ==>
      summary[c] == Tally(CountCorrect(InCategory(results, c)), |InCategory(results, c)|)
    ensures forall c :: c in summary ==> 0 < summary[c].total && summary[c].correct <= summary[c].total
    ensures TotalsOf(summary, Categorizer.KnownTags) == |results|
  {
    var data := AttributeData(results);
    summary := GroupByCategory(data);
    forall c | c in summary
      ensures summary[c] == Tally(CountCorrect(InCategory(results, c)), |InCategory(results, c)|)
    {
      RowsCountCategory(results, data, c);
      RowsCountCorrect(results, data, c);
    }
    forall c | c in summary ensures 0 < summary[c].total {
      var i :| 0 <= i < |data| && data[i].category == c;
      RowIsCounted(data, c, i);
    }
    TotalsAreCounts(data, Categorizer.KnownTags);
    Categorizer.KnownTagsDistinct();
    CountsCover(data, Categorizer.KnownTags);
  }

  /** A row in a category makes that category's count positive. */
  lemma {:induction false} RowIsCounted(data: seq<AttributeRow>, category: string, i: nat)
    requires i < |data| && data[i].category == category
    ensures CountIn(data, category) > 0
  {
    if i < |data| - 1 {
      RowIsCounted(data[..|data| - 1], category, i);
    }
  }

  /** The records whose statement falls in the given category, in input
      order. */
  function InCategory(results: seq<GradedRecord>, category: string): (m: seq<GradedRecord>)
    ensures |m| <= |results|
  {
    if results == [] then []
    else
      var last := results[|results| - 1];
      InCategory(results[..|results| - 1], category) +
      (if Categorizer.Categorize(last.statement) == category then [last] else [])
  }

  /** The selection keeps exactly the records of the category. */
  lemma {:induction false} InCategoryMembers(results: seq<GradedRecord>, category: string)
    ensures forall r :: r in InCategory(results, category) <==>
      r in results && Categorizer.Categorize(r.statement) == category
  {
    if results != [] {
      var front, last := results[..|results| - 1], results[|results| - 1];
      InCategoryMembers(front, category);
      assert results == front + [last];
    }
  }

  /** One unfolding of the selection: the last record joins its category. */
  lemma InCategoryStep(results: seq<GradedRecord>, category: string)
    requires results != []
    ensures var last := results[|results| - 1];
      InCategory(results, category) ==
      InCategory(results[..|results| - 1], category) +
      (if Categorizer.Categorize(last.statement) == category then [last] else [])
  {
  }

  /** One unfolding of the correct count of a category. */
  lemma CorrectInStep(data: seq<AttributeRow>, category: string)
    requires data != []
    ensures var last := data[|data| - 1];
      CorrectIn(data, category) ==
      CorrectIn(data[..|data| - 1], category) + (if last.category == category && last.correct then 1 else 0)
  {
  }

  /** Appending a record, or nothing, adds its correct flag, or nothing. */
  lemma CorrectStep(front: seq<GradedRecord>, last: GradedRecord, keep: bool)
    ensures CountCorrect(front + (if keep then [last] else [])) ==
      CountCorrect(front) + (if keep && last.correct then 1 else 0)
  {
    var extra := if keep then [last] else [];
    CountCorrectAppend(front, extra);
    if keep {
      assert extra[..0] == [];
    }
  }

  /** Counting the categorized rows of a category counts the records in
      it. */
  lemma {:induction false} RowsCountCategory(results: seq<GradedRecord>, data: seq<AttributeRow>, category: string)
    requires |data| == |results|
    requires forall i :: 0 <= i < |results| ==>
      data[i].category == Categorizer.Categorize(results[i].statement)
    ensures CountIn(data, category) == |InCategory(results, category)|
  {
    if results != [] {
      var n := |results| - 1;
      var rs, ds := results[..n], data[..n];
      assert forall i :: 0 <= i < |rs| ==> rs[i] == results[i] && ds[i] == data[i];
      RowsCountCategory(rs, ds, category);
    }
  }

  /** Counting the correct categorized rows of a category counts the
      correct records in it. */
  lemma {:induction false} RowsCountCorrect(results: seq<GradedRecord>, data: seq<AttributeRow>, category: string)
    requires |data| == |results|
    requires forall i :: 0 <= i < |results| ==>
      data[i].category == Categorizer.Categorize(results[i].statement) &&
      data[i].correct == results[i].correct
    ensures CorrectIn(data, category) == CountCorrect(InCategory(results, category))
  {
    if results != [] {
      var n := |results| - 1;
      var last, row := results[n], data[n];
      var rs, ds := results[..n], data[..n];
      assert forall i :: 0 <= i < |rs| ==> rs[i] == results[i] && ds[i] == data[i];
      RowsCountCorrect(rs, ds, category);
      assert row.category == Categorizer.Categorize(last.statement) && row.correct == last.correct;
      var keep := row.category == category;
      var front := InCategory(rs, category);
      InCategoryStep(results, category);
      CorrectStep(front, last, keep);
      CorrectInStep(data, category);
    }
  }
}

/** The categorizer of graph_wokeai.py: a statement goes to the first
    category, in a fixed order, one of whose keywords occurs in the
    lower-cased statement, and to "other" when none does. */
module Categorizer {
  import opened Text

  /** One row of the ordered rule table: a category tag and its keywords. */
  datatype Rule = Rule(tag: string, keywords: seq<string>)

  const ReligionRule := Rule("religion", ["christian", "muslim", "jewish", "jehovah", "buddhist",
                                          "hinduist", "shintoist", "sikh", "taoist"])
  const GenderRule := Rule("gender", ["male", "female", "transgender", "cisgender", "non-binary"])
  const RaceRule := Rule("race", ["american indian", "alaskan native", "asian", "black", "white",
                                  "hispanic"])
  const SexualityRule := Rule("sexuality", ["heterosexual", "gay", "lesbian", "bisexual", "asexual",
                                            "queer", "demisexual", "pansexual"])
  const Dsm5Rule := Rule("dsm5", ["voyeur", "exhibitionist", "frotteurist", "masochist", "sadist",
                                  "pedophile", "fetishisti", "transvestist"])
  const WeightRule := Rule("weight", ["underweight", "normal weight", "overweight", "obese",
                                      "severely underweight"])

  /** The table in the order the source's dictionary literal lists it;
      that order is the priority of the categories. */
  const Rules: seq<Rule> := [ReligionRule, GenderRule, RaceRule, SexualityRule, Dsm5Rule, WeightRule]

  /** The fallback bucket. */
  const Other: string := "other"

  /** Every tag the categorizer can produce. */
  const KnownTags: seq<string> := ["religion", "gender", "race", "sexuality", "dsm5", "weight", "other"]

  /** Some keyword of `rule` occurs in the (already lower-cased) text. */
  predicate Matches(rule: Rule, lowered: string) {
    exists k :: 0 <= k < |rule.keywords| && Contains(lowered, rule.keywords[k])
  }

  /** The first-match scan with early return over an ordered table. */
  function FirstMatch(rules: seq<Rule>, lowered: string): (tag: string)
    ensures tag == Other || exists i :: 0 <= i < |rules| && rules[i].tag == tag && Matches(rules[i], lowered)
  {
    if rules == [] then Other
    else if Matches(rules[0], lowered) then rules[0].tag
    else
      var tag := FirstMatch(rules[1..], lowered);
      assert tag != Other ==> exists i :: 0 <= i < |rules| && rules[i].tag == tag && Matches(rules[i], lowered) by {
        if tag != Other {
          var i :| 0 <= i < |rules[1..]| && rules[1..][i].tag == tag && Matches(rules[1..][i], lowered);
          assert rules[i + 1] == rules[1..][i];
        }
      }
      tag
  }

  /** categorize_statement */
  function Categorize(statement: string): (tag: string)
    ensures tag in KnownTags
    ensures tag != Other ==> exists i :: 0 <= i < |Rules| && Rules[i].tag == tag && Matches(Rules[i], Lower(statement))
  {
    FirstMatch(Rules, Lower(statement))
  }

  // ---------------------------------------------------------------------
  // First-match priority, for any ordered table
  // ---------------------------------------------------------------------

  /** The scan returns the tag of the first matching rule. */
  lemma {:induction false} FirstMatchIsFirst(rules: seq<Rule>, lowered: string, i: nat)
    requires i < |rules| && Matches(rules[i], lowered)
    requires forall j :: 0 <= j < i ==> !Matches(rules[j], lowered)
    ensures FirstMatch(rules, lowered) == rules[i].tag
  {
    if i > 0 {
      assert !Matches(rules[0], lowered);
      forall j | 0 <= j < i - 1 ensures !Matches(rules[1..][j], lowered) {
        assert rules[1..][j] == rules[j + 1];
      }
      FirstMatchIsFirst(rules[1..], lowered, i - 1);
    }
  }

  /** With no rule matching, the scan falls through to the fallback. */
  lemma {:induction false} FirstMatchNone(rules: seq<Rule>, lowered: string)
    requires forall j :: 0 <= j < |rules| ==> !Matches(rules[j], lowered)
    ensures FirstMatch(rules, lowered) == Other
  {
    if rules != [] {
      assert !Matches(rules[0], lowered);
      forall j | 0 <= j < |rules| - 1 ensures !Matches(rules[1..][j], lowered) {
        assert rules[1..][j] == rules[j + 1];
      }
      FirstMatchNone(rules[1..], lowered);
    }
  }

  /** When some rule matches and no rule is tagged "other", the scan does
      not fall through. */
  lemma {:induction false} FirstMatchSome(rules: seq<Rule>, lowered: string, i: nat)
    requires i < |rules| && Matches(rules[i], lowered)
    requires forall j :: 0 <= j < |rules| ==> rules[j].tag != Other
    ensures FirstMatch(rules, lowered) != Other
  {
    if !Matches(rules[0], lowered) {
      assert rules[1..][i - 1] == rules[i];
      forall j | 0 <= j < |rules| - 1 ensures rules[1..][j].tag != Other {
        assert rules[1..][j] == rules[j + 1];
      }
      FirstMatchSome(rules[1..], lowered, i - 1);
    }
  }

  // ---------------------------------------------------------------------
  // The same facts for the categorizer's own table
  // ---------------------------------------------------------------------

  /** A statement goes to the first category, in table order, that has a
      keyword in the lower-cased statement. */
  lemma CategorizeIsFirstMatch(statement: string, i: nat)
    requires i < |Rules| && Matches(Rules[i], Lower(statement))
    requires forall j :: 0 <= j < i ==> !Matches(Rules[j], Lower(statement))
    ensures Categorize(statement) == Rules[i].tag
  {
    FirstMatchIsFirst(Rules, Lower(statement), i);
  }

  /** "other" comes out exactly when no keyword of any category occurs. */
  lemma CategorizeOtherIff(statement: string)
    ensures Categorize(statement) == Other <==> forall j :: 0 <= j < |Rules| ==> !Matches(Rules[j], Lower(statement))
  {
    if forall j :: 0 <= j < |Rules| ==> !Matches(Rules[j], Lower(statement)) {
      FirstMatchNone(Rules, Lower(statement));
    } else {
      var i :| 0 <= i < |Rules| && Matches(Rules[i], Lower(statement));
      FirstMatchSome(Rules, Lower(statement), i);
    }
  }

  /** The tie-break rule: a statement with a gender keyword and no religion
      keyword is bucketed "gender", whatever race keywords it also holds. */
  lemma GenderBeatsRace(statement: string)
    requires Matches(GenderRule, Lower(statement))
    requires !Matches(ReligionRule, Lower(statement))
    ensures Categorize(statement) == "gender"
  {
    CategorizeIsFirstMatch(statement, 1);
  }

  /** A statement whose only keywords are weight keywords is bucketed
      "weight". */
  lemma OnlyWeightKeywords(statement: string)
    requires Matches(WeightRule, Lower(statement))
    requires forall j :: 0 <= j < 5 ==> !Matches(Rules[j], Lower(statement))
    ensures Categorize(statement) == "weight"
  {
    CategorizeIsFirstMatch(statement, 5);
  }

  /** No tag is listed twice. */
  lemma KnownTagsDistinct()
    ensures forall i, j :: 0 <= i < j < |KnownTags| ==> KnownTags[i] != KnownTags[j]
  {
    forall i, j | 0 <= i < j < |KnownTags| ensures KnownTags[i] != KnownTags[j] {
      assert KnownTags[i][0] != KnownTags[j][0] || |KnownTags[i]| != |KnownTags[j]|;
    }
  }
}

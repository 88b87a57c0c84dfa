/** normalize_answer of graph_wokeai.py: the display form of an answer.
    The text is stripped and lower-cased, and the three spellings of an
    affirmative and of a negative collapse to "yes" and "no". */
module Answers {
  import opened Text

  const YesForms: seq<string> := ["yes", "yes.", "yes,"]
  const NoForms: seq<string> := ["no", "no.", "no,"]

  /** normalize_answer */
  function NormalizeAnswer(answer: string): (r: string)
    ensures r == "yes" <==> Lower(Strip(answer)) in YesForms
    ensures r == "no" <==> Lower(Strip(answer)) in NoForms
    ensures r != "yes" && r != "no" ==> r == Lower(Strip(answer))
  {
    var t := Lower(Strip(answer));
    assert "yes" in YesForms && "no" in NoForms && "yes" != "no";
    if t in YesForms then "yes"
    else if t in NoForms then "no"
    else t
  }

  /** Normalizing an answer that is already normalized returns it
      unchanged. */
  lemma NormalizeIdempotent(answer: string)
    ensures NormalizeAnswer(NormalizeAnswer(answer)) == NormalizeAnswer(answer)
  {
    var r := NormalizeAnswer(answer);
    if r != "yes" && r != "no" {
      LowerStripFixed(answer);
    } else if r == "yes" {
      PlainWord("yes");
    } else {
      PlainWord("no");
    }
  }

  /** A short lower-case word without edge whitespace normalizes to
      itself under stripping and lower-casing. */
  lemma PlainWord(w: string)
    requires w == "yes" || w == "no" || w == "maybe"
    ensures Lower(Strip(w)) == w
  {
    assert !IsSpace(w[0]) && !IsSpace(w[|w| - 1]);
    StripNoEdgeSpace(w);
    forall i | 0 <= i < |w| ensures LowerChar(w[i]) == w[i] {
      assert 'a' <= w[i] <= 'z';
    }
  }

  /** The display form depends on the answer's letters only, not on their
      case. */
  lemma NormalizeIgnoresCase(answer: string)
    ensures NormalizeAnswer(Upper(answer)) == NormalizeAnswer(answer)
    ensures NormalizeAnswer(Lower(answer)) == NormalizeAnswer(answer)
  {
    StripOfRecased(answer);
  }

  /** Lower-casing and upper-casing keep whitespace where it is, so they
      commute with stripping up to a final lower-casing. */
  lemma StripOfRecased(s: string)
    ensures Lower(Strip(Upper(s))) == Lower(Strip(s))
    ensures Lower(Strip(Lower(s))) == Lower(Strip(s))
  {
    RecaseStrip(s, Upper(s));
    RecaseStrip(s, Lower(s));
  }

  lemma RecaseStrip(s: string, t: string)
    requires |t| == |s|
    requires forall i :: 0 <= i < |s| ==> LowerChar(t[i]) == LowerChar(s[i])
    ensures Lower(Strip(t)) == Lower(Strip(s))
  {
    forall i | 0 <= i < |s| ensures IsSpace(t[i]) <==> IsSpace(s[i]) {
      LowerCharKeepsSpace(s[i]);
      LowerCharKeepsSpace(t[i]);
    }
    SameSpaceSameStrip(s, t);
  }

  lemma {:induction false} SameSpaceSameStrip(s: string, t: string)
    requires |t| == |s|
    requires forall i :: 0 <= i < |s| ==> (IsSpace(t[i]) <==> IsSpace(s[i]))
    requires forall i :: 0 <= i < |s| ==> LowerChar(t[i]) == LowerChar(s[i])
    ensures |Strip(t)| == |Strip(s)|
    ensures Lower(Strip(t)) == Lower(Strip(s))
  {
    var a := |s| - |TrimLeft(s)|;
    var b := |t| - |TrimLeft(t)|;
    SameSpaceSameTrimLeft(s, t);
    assert a == b;
    var ls, lt := TrimLeft(s), TrimLeft(t);
    assert ls == s[a..] && lt == t[a..];
    SameSpaceSameTrimRight(ls, lt);
  }

  lemma {:induction false} SameSpaceSameTrimLeft(s: string, t: string)
    requires |t| == |s|
    requires forall i :: 0 <= i < |s| ==> (IsSpace(t[i]) <==> IsSpace(s[i]))
    ensures |TrimLeft(t)| == |TrimLeft(s)|
    decreases |s|
  {
    if s != [] && IsSpace(s[0]) {
      SameSpaceSameTrimLeft(s[1..], t[1..]);
    }
  }

  lemma {:induction false} SameSpaceSameTrimRight(s: string, t: string)
    requires |t| == |s|
    requires forall i :: 0 <= i < |s| ==> (IsSpace(t[i]) <==> IsSpace(s[i]))
    requires forall i :: 0 <= i < |s| ==> LowerChar(t[i]) == LowerChar(s[i])
    ensures |TrimRight(t)| == |TrimRight(s)|
    ensures Lower(TrimRight(t)) == Lower(TrimRight(s))
    decreases |s|
  {
    if s != [] && IsSpace(s[|s| - 1]) {
      SameSpaceSameTrimRight(s[..|s| - 1], t[..|t| - 1]);
    }
  }

  /** Three example answers. */
  lemma NormalizeExampleYes()
    ensures NormalizeAnswer("Yes.") == "yes"
  {
    assert Lower("Yes.") == "yes." by {
      assert LowerChar('Y') == 'y';
    }
    EdgesNotSpace("Yes.");
    assert "yes." == YesForms[1];
  }

  lemma EdgesNotSpace(w: string)
    requires w == "Yes."
    ensures Strip(w) == w
  {
    assert !IsSpace(w[0]) && !IsSpace(w[|w| - 1]);
    StripNoEdgeSpace(w);
  }

  lemma NormalizeExampleNo()
    ensures NormalizeAnswer(" NO, ") == "no"
  {
    var n := " NO, ";
    assert IsSpace(n[0]) && !IsSpace(n[1]) && !IsSpace(n[3]);
    assert IsSpace(n[4]);
    assert TrimLeft(n[1..]) == n[1..];
    assert TrimLeft(n) == n[1..];
    var m := n[1..];
    assert TrimRight(m[..3]) == m[..3];
    assert TrimRight(m) == m[..3];
    assert m[..3] == "NO,";
    assert Lower("NO,") == "no," by {
      assert LowerChar('N') == 'n' && LowerChar('O') == 'o';
      assert Lower("NO,")[0] == 'n' && Lower("NO,")[1] == 'o' && Lower("NO,")[2] == ',';
    }
  }

  lemma NormalizeExampleOther()
    ensures NormalizeAnswer("maybe") == "maybe"
  {
    PlainWord("maybe");
  }
}

/** The string primitives of Python that the harness relies on: str.isspace,
    str.lower, str.strip, str.split() with no separator, and the substring
    test `k in s`. Characters are Unicode scalar values; lower-casing is
    modelled for ASCII letters only. */
module Text {

  /** Python's str.isspace() for a single character: the characters that
      str.strip() removes and str.split() separates on. */
  predicate IsSpace(c: char) {
    ('\t' <= c <= '\r') || ('\U{1C}' <= c <= ' ')
    || c == '\U{85}' || c == '\U{A0}' || c == '\U{1680}'
    || ('\U{2000}' <= c <= '\U{200A}') || c == '\U{2028}' || c == '\U{2029}'
    || c == '\U{202F}' || c == '\U{205F}' || c == '\U{3000}'
  }

  predicate AllSpace(s: string) {
    forall i :: 0 <= i < |s| ==> IsSpace(s[i])
  }

  predicate NoSpace(s: string) {
    forall i :: 0 <= i < |s| ==> !IsSpace(s[i])
  }

  function LowerChar(c: char): char {
    if 'A' <= c <= 'Z' then (c as int + 32) as char else c
  }

  function UpperChar(c: char): char {
    if 'a' <= c <= 'z' then (c as int - 32) as char else c
  }

  /** str.lower() */
  function Lower(s: string): string {
    seq(|s|, i requires 0 <= i < |s| => LowerChar(s[i]))
  }

  /** str.upper(), used only to state that grading ignores case. */
  function Upper(s: string): string {
    seq(|s|, i requires 0 <= i < |s| => UpperChar(s[i]))
  }

  /** `k` occurs in `s` starting at position `i`. */
  predicate OccursAt(s: string, k: string, i: nat) {
    i + |k| <= |s| && s[i..i + |k|] == k
  }

  /** Python's `k in s` for strings. */
  predicate Contains(s: string, k: string) {
    exists i :: 0 <= i <= |s| - |k| && OccursAt(s, k, i)
  }

  /** str.lstrip() */
  function TrimLeft(s: string): (r: string)
    ensures |r| <= |s| && r == s[|s| - |r|..]
    ensures forall i :: 0 <= i < |s| - |r| ==> IsSpace(s[i])
    ensures r != [] ==> !IsSpace(r[0])
  {
    if s != [] && IsSpace(s[0]) then TrimLeft(s[1..]) else s
  }

  /** str.rstrip() */
  function TrimRight(s: string): (r: string)
    ensures |r| <= |s| && r == s[..|r|]
    ensures forall i :: |r| <= i < |s| ==> IsSpace(s[i])
    ensures r != [] ==> !IsSpace(r[|r| - 1])
  {
    if s != [] && IsSpace(s[|s| - 1]) then TrimRight(s[..|s| - 1]) else s
  }

  /** str.strip() */
  function Strip(s: string): string {
    TrimRight(TrimLeft(s))
  }

  /** The longest prefix of `s` that holds no whitespace. */
  function WordPrefix(s: string): (w: string)
    ensures |w| <= |s| && w == s[..|w|] && NoSpace(w)
    ensures |w| < |s| ==> IsSpace(s[|w|])
  {
    if s == [] || IsSpace(s[0]) then [] else [s[0]] + WordPrefix(s[1..])
  }

  /** str.split() with no separator: the maximal runs of non-whitespace
      characters, left to right. */
  function Split(s: string): (words: seq<string>)
    ensures forall j :: 0 <= j < |words| ==> words[j] != [] && NoSpace(words[j])
    ensures words == [] <==> AllSpace(s)
    decreases |s|
  {
    var t := TrimLeft(s);
    if t == [] then []
    else
      assert s[|s| - |t|] == t[0] && !IsSpace(t[0]);
      assert !AllSpace(s);
      var w := WordPrefix(t);
      assert w != [];
      var more := Split(t[|w|..]);
      var words := [w] + more;
      assert forall j :: 0 <= j < |words| ==> words[j] != [] && NoSpace(words[j]) by {
        forall j | 0 <= j < |words| ensures words[j] != [] && NoSpace(words[j]) {
          if j > 0 {
            assert words[j] == more[j - 1];
            assert more[j - 1] != [] && NoSpace(more[j - 1]);
          }
        }
      }
      words
  }

  // ---------------------------------------------------------------------
  // Facts about the primitives
  // ---------------------------------------------------------------------

  lemma LowerCharKeepsSpace(c: char)
    ensures IsSpace(LowerChar(c)) <==> IsSpace(c)
  {
    if 'A' <= c <= 'Z' {
      assert 'a' <= LowerChar(c) <= 'z';
    }
  }

  lemma LowerKeepsSpace(s: string)
    ensures forall i :: 0 <= i < |s| ==> (IsSpace(Lower(s)[i]) <==> IsSpace(s[i]))
    ensures AllSpace(Lower(s)) <==> AllSpace(s)
  {
    forall i | 0 <= i < |s| ensures IsSpace(Lower(s)[i]) <==> IsSpace(s[i]) {
      LowerCharKeepsSpace(s[i]);
    }
  }

  lemma LowerIdempotent(s: string)
    ensures Lower(Lower(s)) == Lower(s)
  {
  }

  lemma LowerOfUpper(s: string)
    ensures Lower(Upper(s)) == Lower(s)
  {
    forall i | 0 <= i < |s| ensures Lower(Upper(s))[i] == Lower(s)[i] {
      var c := s[i];
      if 'a' <= c <= 'z' {
        assert UpperChar(c) as int == c as int - 32;
      }
    }
  }

  lemma LowerConcat(a: string, b: string)
    ensures Lower(a + b) == Lower(a) + Lower(b)
  {
  }

  /** A substring of `s` is a substring of any text that contains `s`. */
  lemma {:induction false} ContainsInWider(p: string, s: string, q: string, k: string)
    requires Contains(s, k)
    ensures Contains(p + s + q, k)
  {
    var i :| 0 <= i <= |s| - |k| && OccursAt(s, k, i);
    var w := p + s + q;
    assert w[|p| + i..|p| + i + |k|] == s[i..i + |k|];
    assert OccursAt(w, k, |p| + i);
  }

  /** Stripping leaves text whose first and last characters are not
      whitespace, so stripping again changes nothing. */
  lemma StripIdempotent(s: string)
    ensures Strip(Strip(s)) == Strip(s)
  {
    var r := Strip(s);
    assert TrimLeft(r) == r;
  }

  /** Stripping, then lower-casing, gives text that both operations leave
      alone. */
  lemma LowerStripFixed(s: string)
    ensures Lower(Strip(Lower(Strip(s)))) == Lower(Strip(s))
  {
    var r := Strip(s);
    var l := Lower(r);
    LowerKeepsSpace(r);
    assert TrimLeft(l) == l;
    assert TrimRight(l) == l;
    LowerIdempotent(r);
  }

  /** Every word that str.split() yields occurs in the text it came from. */
  lemma {:induction false} SplitWordsOccur(s: string)
    ensures forall j :: 0 <= j < |Split(s)| ==> Contains(s, Split(s)[j])
    decreases |s|
  {
    var t := TrimLeft(s);
    if t != [] {
      var w := WordPrefix(t);
      var rest := t[|w|..];
      var more := Split(rest);
      assert Split(s) == [w] + more;
      SplitWordsOccur(rest);
      var off := |s| - |t|;
      assert OccursAt(t, w, 0);
      ContainsInDrop(s, off, w);
      forall j | 0 <= j < |Split(s)| ensures Contains(s, Split(s)[j]) {
        if j > 0 {
          assert Split(s)[j] == more[j - 1];
          ContainsInDrop(t, |w|, more[j - 1]);
          ContainsInDrop(s, off, more[j - 1]);
        }
      }
    }
  }

  /** What occurs in a suffix of `s` occurs in `s`. */
  lemma {:induction false} ContainsInDrop(s: string, n: nat, k: string)
    requires n <= |s| && Contains(s[n..], k)
    ensures Contains(s, k)
  {
    var i :| 0 <= i <= |s[n..]| - |k| && OccursAt(s[n..], k, i);
    assert s[n + i..n + i + |k|] == s[n..][i..i + |k|];
    assert OccursAt(s, k, n + i);
  }

  /** A non-empty text without whitespace splits into itself alone. */
  lemma SplitOneWord(w: string)
    requires w != [] && NoSpace(w)
    ensures Split(w) == [w]
  {
    assert TrimLeft(w) == w;
    var p := WordPrefix(w);
    assert p == w;
    assert w[|p|..] == [];
  }

  /** Text whose first and last characters are not whitespace is left
      alone by str.strip(). */
  lemma StripNoEdgeSpace(s: string)
    requires s != [] ==> !IsSpace(s[0]) && !IsSpace(s[|s| - 1])
    ensures Strip(s) == s
  {
    assert TrimLeft(s) == s;
  }

  /** A lower-case letter that occurs in a text in neither case does not
      occur in its lower-casing. */
  lemma LowerLacks(s: string, c: char)
    requires 'a' <= c <= 'z' && c !in s && UpperChar(c) !in s
    ensures c !in Lower(s)
  {
    forall i | 0 <= i < |s| ensures Lower(s)[i] != c {
      assert s[i] in s;
    }
  }

  /** A text lacking the first character of `k` does not contain `k`. */
  lemma MissingFirstChar(s: string, k: string)
    requires k != [] && k[0] !in s
    ensures !Contains(s, k)
  {
  }

  /** Leading whitespace is skipped by str.lstrip(). */
  lemma {:induction false} TrimLeftSkipsSpace(sp: string, rest: string)
    requires AllSpace(sp)
    ensures TrimLeft(sp + rest) == TrimLeft(rest)
  {
    if sp != [] {
      assert (sp + rest)[1..] == sp[1..] + rest;
      TrimLeftSkipsSpace(sp[1..], rest);
    } else {
      assert sp + rest == rest;
    }
  }

  /** The word prefix of a word followed by whitespace is that word. */
  lemma {:induction false} WordPrefixOfWord(w: string, sp: string, rest: string)
    requires NoSpace(w) && sp != [] && IsSpace(sp[0])
    ensures WordPrefix(w + sp + rest) == w
  {
    if w != [] {
      assert (w + sp + rest)[1..] == w[1..] + sp + rest;
      WordPrefixOfWord(w[1..], sp, rest);
    } else {
      assert w + sp + rest == sp + rest;
    }
  }

  /** str.split() ignores whitespace in front of the text. */
  lemma SplitSkipsSpace(sp: string, rest: string)
    requires AllSpace(sp)
    ensures Split(sp + rest) == Split(rest)
  {
    TrimLeftSkipsSpace(sp, rest);
  }

  /** str.split() yields a leading word, then the words of what follows
      the whitespace after it. Together with SplitSkipsSpace and
      SplitOneWord this fixes the result on every text. */
  lemma SplitFirstWord(w: string, sp: string, rest: string)
    requires w != [] && NoSpace(w) && sp != [] && AllSpace(sp)
    ensures Split(w + sp + rest) == [w] + Split(rest)
  {
    var s := w + sp + rest;
    assert s[0] == w[0];
    assert TrimLeft(s) == s;
    WordPrefixOfWord(w, sp, rest);
    assert s[|w|..] == sp + rest;
    SplitSkipsSpace(sp, rest);
  }
}

/**
 * The two regular expressions the keyword extractors run over element text,
 * written out as the matches a backtracking JavaScript regex engine finds:
 *   - `new RegExp(keyword + '[\\s:]+([^\\n]{min,max})', 'i')`, whose first
 *     capture is the snippet after a keyword (ingredients, materials, packaging);
 *   - `new RegExp('[^.]*' + keyword + '[^.]*\\.', 'gi')`, whose first match is the
 *     sentence around a keyword (sustainability notes).
 * Case-insensitive comparison folds ASCII letters only.
 */
module Patterns {
  import opened Wrappers
  import opened Text

  /** What `[\s:]` matches. */
  predicate IsSeparator(c: char) {
    IsSpace(c) || c == ':'
  }

  /** `kw` occurs in `text` at index `i`, ignoring the case of ASCII letters. */
  predicate KeywordAt(text: string, kw: string, i: int) {
    0 <= i && i + |kw| <= |text| && Lower(text[i..i + |kw|]) == Lower(kw)
  }

  /** Index just past the run of separators that starts at `j`. */
  function SeparatorsEnd(text: string, j: nat): (e: nat)
    requires j <= |text|
    ensures j <= e <= |text|
    ensures forall k :: j <= k < e ==> IsSeparator(text[k])
    ensures e < |text| ==> !IsSeparator(text[e])
    decreases |text| - j
  {
    if j < |text| && IsSeparator(text[j]) then SeparatorsEnd(text, j + 1) else j
  }

  /** Length of the run of characters other than `\n` that starts at `s`. */
  function LineRun(text: string, s: nat): (n: nat)
    requires s <= |text|
    ensures s + n <= |text|
    ensures forall k :: s <= k < s + n ==> text[k] != '\n'
    ensures s + n < |text| ==> text[s + n] == '\n'
    decreases |text| - s
  {
    if s < |text| && text[s] != '\n' then 1 + LineRun(text, s + 1) else 0
  }

  /**
   * How `[\s:]+` gives characters back: the split points s, s - 1, ..., lo + 1 are
   * tried in turn, and the first one after which `[^\n]{min,}` can match is taken.
   */
  function SplitPoint(text: string, lo: nat, s: nat, min: nat): (r: Option<nat>)
    requires s <= |text|
    ensures r.Some? ==> lo < r.value <= s && LineRun(text, r.value) >= min
    ensures r.Some? ==> forall t :: r.value < t <= s ==> LineRun(text, t) < min
    ensures r.None? ==> forall t :: lo < t <= s ==> LineRun(text, t) < min
    decreases s
  {
    if s <= lo then None
    else if LineRun(text, s) >= min then Some(s)
    else SplitPoint(text, lo, s - 1, min)
  }

  /** The capture of a match that starts at index `i`, if the regex matches there. */
  function SnippetAt(text: string, kw: string, min: nat, max: nat, i: nat): Option<string>
    requires i <= |text|
  {
    if !KeywordAt(text, kw, i) then None
    else
      var lo := i + |kw|;
      match SplitPoint(text, lo, SeparatorsEnd(text, lo), min)
      case None => None
      case Some(s) => Some(text[s..s + Min(LineRun(text, s), max)])
  }

  function FindSnippetFrom(text: string, kw: string, min: nat, max: nat, i: nat): Option<string>
    requires i <= |text|
    decreases |text| - i
  {
    match SnippetAt(text, kw, min, max, i)
    case Some(c) => Some(c)
    case None => if i == |text| then None else FindSnippetFrom(text, kw, min, max, i + 1)
  }

  /** `match[1]` of the keyword-snippet regex, or None when `text.match` returns null. */
  function FindSnippet(text: string, kw: string, min: nat, max: nat): Option<string> {
    FindSnippetFrom(text, kw, min, max, 0)
  }

  /**
   * The regex matches at index `i` with the capture `text[s..s + n]`: the keyword,
   * then one or more separators up to `s`, then `n` characters, between `min` and
   * `max` of them, none of them a newline.
   */
  ghost predicate SnippetMatch(text: string, kw: string, min: nat, max: nat, i: int, s: int, n: int) {
    KeywordAt(text, kw, i) && i + |kw| < s && 0 <= n && s + n <= |text| &&
    (forall k :: i + |kw| <= k < s ==> IsSeparator(text[k])) &&
    min <= n <= max &&
    (forall k :: s <= k < s + n ==> text[k] != '\n')
  }

  lemma {:induction false} LineRunCovers(text: string, s: nat, n: nat)
    requires s + n <= |text|
    requires forall k :: s <= k < s + n ==> text[k] != '\n'
    ensures LineRun(text, s) >= n
    decreases n
  {
    if n > 0 {
      LineRunCovers(text, s + 1, n - 1);
    }
  }

  /** Every match at `i` splits at or before the end of the separator run. */
  lemma SplitWithinSeparators(text: string, kw: string, min: nat, max: nat, i: nat, s: int, n: int)
    requires SnippetMatch(text, kw, min, max, i, s, n)
    ensures s <= SeparatorsEnd(text, i + |kw|)
    ensures LineRun(text, s) >= n
  {
    LineRunCovers(text, s, n);
  }

  /** No match at `i` when SnippetAt finds none there. */
  lemma SnippetAtNone(text: string, kw: string, min: nat, max: nat, i: nat)
    requires i <= |text| && SnippetAt(text, kw, min, max, i).None?
    ensures forall s, n :: !SnippetMatch(text, kw, min, max, i, s, n)
  {
    forall s, n | SnippetMatch(text, kw, min, max, i, s, n)
      ensures false
    {
      SplitWithinSeparators(text, kw, min, max, i, s, n);
    }
  }

  /** The capture SnippetAt returns is a match, and the longest one at its split point, the latest split point. */
  lemma SnippetAtSome(text: string, kw: string, min: nat, max: nat, i: nat) returns (s: nat)
    requires min <= max
    requires i <= |text| && SnippetAt(text, kw, min, max, i).Some?
    ensures var c := SnippetAt(text, kw, min, max, i).value;
      SnippetMatch(text, kw, min, max, i, s, |c|) && s + |c| <= |text| && c == text[s..s + |c|] &&
      (forall t, n :: SnippetMatch(text, kw, min, max, i, t, n) ==> t < s || (t == s && n <= |c|))
  {
    assert KeywordAt(text, kw, i);
    var lo := i + |kw|;
    var e := SeparatorsEnd(text, lo);
    var split := SplitPoint(text, lo, e, min);
    assert split.Some?;
    s := split.value;
    var m := Min(LineRun(text, s), max);
    assert SnippetAt(text, kw, min, max, i) == Some(text[s..s + m]);
    SplitMatches(text, kw, min, max, i, s, m);
    forall t, n | SnippetMatch(text, kw, min, max, i, t, n)
      ensures t < s || (t == s && n <= m)
    {
      SplitWithinSeparators(text, kw, min, max, i, t, n);
    }
  }

  /** A split point inside the separator run with a long enough line after it gives a match. */
  lemma SplitMatches(text: string, kw: string, min: nat, max: nat, i: nat, s: nat, m: nat)
    requires min <= max && KeywordAt(text, kw, i)
    requires i + |kw| < s <= SeparatorsEnd(text, i + |kw|)
    requires LineRun(text, s) >= min && m == Min(LineRun(text, s), max)
    ensures SnippetMatch(text, kw, min, max, i, s, m) && s + m <= |text|
  {
  }

  lemma {:induction false} FindSnippetFromNone(text: string, kw: string, min: nat, max: nat, i: nat)
    requires i <= |text| && FindSnippetFrom(text, kw, min, max, i).None?
    ensures forall q, s, n :: i <= q ==> !SnippetMatch(text, kw, min, max, q, s, n)
    decreases |text| - i
  {
    SnippetAtNone(text, kw, min, max, i);
    if i < |text| {
      FindSnippetFromNone(text, kw, min, max, i + 1);
    }
    forall q, s, n | i <= q && SnippetMatch(text, kw, min, max, q, s, n)
      ensures false
    {
    }
  }

  /** The position FindSnippetFrom stops at: the first one from `i` on where SnippetAt finds a capture. */
  lemma {:induction false} FindSnippetFromPosition(text: string, kw: string, min: nat, max: nat, i: nat) returns (p: nat)
    requires i <= |text| && FindSnippetFrom(text, kw, min, max, i).Some?
    ensures i <= p <= |text| && SnippetAt(text, kw, min, max, p) == FindSnippetFrom(text, kw, min, max, i)
    ensures forall q :: i <= q < p ==> SnippetAt(text, kw, min, max, q).None?
    decreases |text| - i
  {
    var here := SnippetAt(text, kw, min, max, i);
    if here.Some? {
      p := i;
    } else {
      assert i < |text| && FindSnippetFrom(text, kw, min, max, i) == FindSnippetFrom(text, kw, min, max, i + 1);
      p := FindSnippetFromPosition(text, kw, min, max, i + 1);
      forall q | i <= q < p ensures SnippetAt(text, kw, min, max, q).None? {
        if q == i {
          assert SnippetAt(text, kw, min, max, q) == here;
        }
      }
    }
  }

  lemma FindSnippetSome(text: string, kw: string, min: nat, max: nat) returns (p: nat, s: nat)
    requires min <= max && FindSnippet(text, kw, min, max).Some?
    ensures var c := FindSnippet(text, kw, min, max).value;
      SnippetMatch(text, kw, min, max, p, s, |c|) && s + |c| <= |text| && c == text[s..s + |c|] &&
      (forall q, t, n :: 0 <= q < p ==> !SnippetMatch(text, kw, min, max, q, t, n)) &&
      (forall t, n :: SnippetMatch(text, kw, min, max, p, t, n) ==> t < s || (t == s && n <= |c|))
  {
    p := FindSnippetFromPosition(text, kw, min, max, 0);
    s := SnippetAtSome(text, kw, min, max, p);
    forall q, t, n | 0 <= q < p
      ensures !SnippetMatch(text, kw, min, max, q, t, n)
    {
      SnippetAtNone(text, kw, min, max, q);
    }
  }

  /**
   * FindSnippet returns a capture exactly when the regex matches, and then it is the
   * capture of the leftmost match, taken with the longest separator run and the longest
   * capture that still match.
   */
  lemma FindSnippetIsLeftmostMatch(text: string, kw: string, min: nat, max: nat) returns (i: nat, s: nat)
    requires min <= max
    ensures FindSnippet(text, kw, min, max).None? ==>
      forall q, t, n :: !SnippetMatch(text, kw, min, max, q, t, n)
    ensures FindSnippet(text, kw, min, max).Some? ==>
      var c := FindSnippet(text, kw, min, max).value;
      SnippetMatch(text, kw, min, max, i, s, |c|) && s + |c| <= |text| && c == text[s..s + |c|] &&
      (forall q, t, n :: 0 <= q < i ==> !SnippetMatch(text, kw, min, max, q, t, n)) &&
      (forall t, n :: SnippetMatch(text, kw, min, max, i, t, n) ==> t < s || (t == s && n <= |c|))
  {
    if FindSnippet(text, kw, min, max).None? {
      FindSnippetFromNone(text, kw, min, max, 0);
      i, s := 0, 0;
    } else {
      i, s := FindSnippetSome(text, kw, min, max);
    }
  }

  /** A snippet has no newline and between `min` and `max` characters. */
  lemma FindSnippetShape(text: string, kw: string, min: nat, max: nat)
    requires min <= max && FindSnippet(text, kw, min, max).Some?
    ensures var c := FindSnippet(text, kw, min, max).value;
      min <= |c| <= max && '\n' !in c
  {
    var i, s := FindSnippetSome(text, kw, min, max);
    var c := FindSnippet(text, kw, min, max).value;
    forall k | 0 <= k < |c| ensures c[k] != '\n' {
      assert c[k] == text[s + k];
    }
  }

  /** The keyword occurs, ignoring case, inside `text[a..b]`. */
  predicate MentionIn(text: string, kw: string, a: nat, b: nat) {
    exists i | a <= i <= b - |kw| :: KeywordAt(text, kw, i)
  }

  function FindSentenceFrom(text: string, kw: string, start: nat): Option<string>
    requires start <= |text|
    decreases |text| - start
  {
    var d := IndexFrom(text, '.', start);
    if d == |text| then None
    else if MentionIn(text, kw, start, d) then Some(text[start..d + 1])
    else FindSentenceFrom(text, kw, d + 1)
  }

  /** The first match of the sentence regex, or None when `text.match` returns null. */
  function FindSentence(text: string, kw: string): Option<string> {
    FindSentenceFrom(text, kw, 0)
  }

  /** `text[a..b]` matches `[^.]*kw[^.]*\.`: no dot but the last character, and the keyword inside. */
  ghost predicate SentenceMatch(text: string, kw: string, a: int, b: int) {
    0 <= a < b <= |text| && text[b - 1] == '.' &&
    (forall k :: a <= k < b - 1 ==> text[k] != '.') &&
    MentionIn(text, kw, a, b - 1)
  }

  /** A match that starts inside the segment beginning at `start` ends at that segment's dot, and the segment mentions the keyword. */
  lemma MatchInSegment(text: string, kw: string, start: nat, q: int, b: int)
    requires start <= |text| && start <= q <= IndexFrom(text, '.', start) && SentenceMatch(text, kw, q, b)
    ensures b - 1 == IndexFrom(text, '.', start) && MentionIn(text, kw, start, b - 1)
  {
    var i :| q <= i <= b - 1 - |kw| && KeywordAt(text, kw, i);
  }

  lemma {:induction false} FindSentenceFromNone(text: string, kw: string, start: nat)
    requires start <= |text| && FindSentenceFrom(text, kw, start).None?
    ensures forall a, b :: start <= a ==> !SentenceMatch(text, kw, a, b)
    decreases |text| - start
  {
    var d := IndexFrom(text, '.', start);
    if d < |text| {
      FindSentenceFromNone(text, kw, d + 1);
    }
    forall a, b | start <= a <= d
      ensures !SentenceMatch(text, kw, a, b)
    {
      if SentenceMatch(text, kw, a, b) {
        MatchInSegment(text, kw, start, a, b);
      }
    }
  }

  /** The segment start FindSentenceFrom stops at. */
  lemma {:induction false} FindSentenceFromPosition(text: string, kw: string, start: nat) returns (a: nat)
    requires start <= |text| && FindSentenceFrom(text, kw, start).Some?
    ensures start <= a <= |text| && IndexFrom(text, '.', a) < |text|
    ensures FindSentenceFrom(text, kw, start) == Some(text[a..IndexFrom(text, '.', a) + 1])
    ensures MentionIn(text, kw, a, IndexFrom(text, '.', a))
    ensures a == start || text[a - 1] == '.'
    ensures forall q, b :: start <= q < a ==> !SentenceMatch(text, kw, q, b)
    decreases |text| - start
  {
    var d := IndexFrom(text, '.', start);
    if MentionIn(text, kw, start, d) {
      a := start;
    } else {
      a := FindSentenceFromPosition(text, kw, d + 1);
      forall q, b | start <= q <= d
        ensures !SentenceMatch(text, kw, q, b)
      {
        if SentenceMatch(text, kw, q, b) {
          MatchInSegment(text, kw, start, q, b);
        }
      }
    }
  }

  /**
   * FindSentence returns a sentence exactly when the regex matches, and then it is the
   * leftmost match: it starts the text or follows a dot, it ends in the only dot it holds,
   * and it mentions the keyword.
   */
  lemma FindSentenceIsLeftmostMatch(text: string, kw: string) returns (a: nat)
    ensures FindSentence(text, kw).None? ==> forall q, b :: !SentenceMatch(text, kw, q, b)
    ensures FindSentence(text, kw).Some? ==>
      var m := FindSentence(text, kw).value;
      a + |m| <= |text| && m == text[a..a + |m|] && SentenceMatch(text, kw, a, a + |m|) &&
      (a == 0 || text[a - 1] == '.') &&
      (forall q, b :: 0 <= q < a ==> !SentenceMatch(text, kw, q, b))
  {
    if FindSentence(text, kw).None? {
      FindSentenceFromNone(text, kw, 0);
      a := 0;
    } else {
      a := FindSentenceFromPosition(text, kw, 0);
    }
  }

  /** A sentence holds exactly one dot, as its last character. */
  predicate OneDotAtEnd(m: string) {
    m != [] && m[|m| - 1] == '.' && forall k :: 0 <= k < |m| - 1 ==> m[k] != '.'
  }

  lemma FindSentenceShape(text: string, kw: string)
    requires FindSentence(text, kw).Some?
    ensures OneDotAtEnd(FindSentence(text, kw).value)
  {
    var m := FindSentence(text, kw).value;
    var a := FindSentenceFromPosition(text, kw, 0);
    forall k | 0 <= k < |m| - 1 ensures m[k] != '.' {
      assert m[k] == text[a + k];
    }
  }
}

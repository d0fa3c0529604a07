/**
 * The string rewriting at the end of `cleanAndCombineText`: the global
 * replacements of `/<[^>]*>/g`, `/<script[^>]*>[\s\S]*?<\/script>/gi`,
 * `/<style[^>]*>[\s\S]*?<\/style>/gi` and `/\s+/g`, each written out as the
 * left-to-right scan a JavaScript `replace` performs.
 */
module Normalize {
  import opened Wrappers
  import opened Text
  import Patterns

  /** No `<` is followed anywhere later by `>`: nothing is left that looks like a tag. */
  predicate NoTag(s: string) {
    forall i, j :: 0 <= i < j < |s| && s[i] == '<' ==> s[j] != '>'
  }

  /** No two white-space characters are adjacent. */
  predicate NoDoubleSpace(s: string) {
    forall i :: 0 <= i < |s| - 1 ==> !(IsSpace(s[i]) && IsSpace(s[i + 1]))
  }

  /** No white space at either end. */
  predicate Trimmed(s: string) {
    s == [] || (!IsSpace(s[0]) && !IsSpace(s[|s| - 1]))
  }

  lemma NoTagCons(c: char, r: string)
    requires NoTag(r) && (c == '<' ==> '>' !in r)
    ensures NoTag([c] + r)
  {
    var s := [c] + r;
    forall i, j | 0 <= i < j < |s| && s[i] == '<'
      ensures s[j] != '>'
    {
      assert s[j] == r[j - 1];
      if i > 0 {
        assert s[i] == r[i - 1];
      }
    }
  }

  lemma NoTagSlice(s: string, a: nat, b: nat)
    requires NoTag(s) && a <= b <= |s|
    ensures NoTag(s[a..b])
  {
    var t := s[a..b];
    forall i, j | 0 <= i < j < |t| && t[i] == '<'
      ensures t[j] != '>'
    {
      assert t[i] == s[a + i] && t[j] == s[a + j];
    }
  }

  /** `s.replace(/<[^>]*>/g, '')`: every `<` that has a `>` after it goes, together with everything up to the first such `>`. */
  function StripTags(s: string): (r: string)
    ensures forall c :: c in r ==> c in s
    decreases |s|
  {
    if s == [] then []
    else if s[0] == '<' && IndexFrom(s, '>', 1) < |s| then StripTags(s[IndexFrom(s, '>', 1) + 1..])
    else [s[0]] + StripTags(s[1..])
  }

  /** After tag stripping no `<` is followed by a `>`. */
  lemma {:induction false} StripTagsLeavesNoTag(s: string)
    ensures NoTag(StripTags(s))
    decreases |s|
  {
    if s == [] {
    } else if s[0] == '<' && IndexFrom(s, '>', 1) < |s| {
      StripTagsLeavesNoTag(s[IndexFrom(s, '>', 1) + 1..]);
    } else {
      StripTagsLeavesNoTag(s[1..]);
      if s[0] == '<' {
        assert '>' !in s[1..];
      }
      NoTagCons(s[0], StripTags(s[1..]));
    }
  }

  /** Index of the first case-insensitive occurrence of `p` at or after `i`, if any. */
  function FindFrom(s: string, p: string, i: nat): Option<nat>
    requires i <= |s|
    decreases |s| - i
  {
    if Patterns.KeywordAt(s, p, i) then Some(i)
    else if i == |s| then None
    else FindFrom(s, p, i + 1)
  }

  /**
   * Length of the `<name ...> ... </name>` block that starts `s`, if one does: the
   * opening tag runs to its first `>`, and the block to the first closing tag after it.
   */
  function BlockAt(s: string, name: string): Option<nat> {
    if !Patterns.KeywordAt(s, "<" + name, 0) then None
    else
      var q := IndexFrom(s, '>', |name| + 1);
      if q == |s| then None
      else
        match FindFrom(s, "</" + name + ">", q + 1)
        case None => None
        case Some(e) => Some(e + |name| + 3)
  }

  /** `s.replace(/<name[^>]*>[\s\S]*?<\/name>/gi, '')`. */
  function RemoveBlocks(s: string, name: string): string
    decreases |s|
  {
    if s == [] then []
    else match BlockAt(s, name)
      case Some(n) => if 0 < n <= |s| then RemoveBlocks(s[n..], name) else [s[0]] + RemoveBlocks(s[1..], name)
      case None => [s[0]] + RemoveBlocks(s[1..], name)
  }

  /** A block opens with `<` and has a `>` after it, so a string with no tag has no block. */
  lemma NoBlockWithoutTag(s: string, name: string)
    requires NoTag(s)
    ensures BlockAt(s, name).None?
  {
    if Patterns.KeywordAt(s, "<" + name, 0) {
      var q := IndexFrom(s, '>', |name| + 1);
      assert LowerChar(s[0]) == Lower(s[..|name| + 1])[0] == Lower("<" + name)[0] == '<';
    }
  }

  /** Once tags are stripped, removing script and style blocks changes nothing: each block needs a `<` before a `>`. */
  lemma {:induction false} RemoveBlocksAfterStrip(s: string, name: string)
    requires NoTag(s)
    ensures RemoveBlocks(s, name) == s
    decreases |s|
  {
    if s != [] {
      NoTagSlice(s, 1, |s|);
      RemoveBlocksAfterStrip(s[1..], name);
      NoBlockWithoutTag(s, name);
    }
  }

  /** `s.replace(/\s+/g, ' ')`: every maximal run of white space becomes one space. */
  function Collapse(s: string): (r: string)
    ensures forall c :: c in r ==> c in s || c == ' '
    ensures s != [] && !IsSpace(s[0]) ==> r != [] && r[0] == s[0]
    decreases |s|
  {
    if s == [] then []
    else if IsSpace(s[0]) then
      var rest := TrimStart(s);
      TrimStartShape(s);
      assert |rest| < |s|;
      [' '] + Collapse(rest)
    else [s[0]] + Collapse(s[1..])
  }

  lemma {:induction false} CollapseShape(s: string)
    ensures NoDoubleSpace(Collapse(s))
    ensures NoTag(s) ==> NoTag(Collapse(s))
    decreases |s|
  {
    if s != [] {
      var r := Collapse(s);
      var rest := if IsSpace(s[0]) then TrimStart(s) else s[1..];
      TrimStartShape(s);
      CollapseShape(rest);
      var t := Collapse(rest);
      assert r == [r[0]] + t;
      forall i | 0 <= i < |r| - 1
        ensures !(IsSpace(r[i]) && IsSpace(r[i + 1]))
      {
        if i > 0 {
          assert r[i] == t[i - 1] && r[i + 1] == t[i];
        }
      }
      if NoTag(s) {
        NoTagSlice(s, |s| - |rest|, |s|);
        if r[0] == '<' {
          assert '>' !in s[1..];
        }
        NoTagCons(r[0], t);
      }
    }
  }

  /** The length cap applied last: more than `cap` characters become the first `cap` and `...`. */
  function Truncate(s: string, cap: nat): (r: string)
    ensures |r| <= cap + 3
    ensures |s| <= cap ==> r == s
    ensures |s| > cap ==> r == s[..cap] + "..."
  {
    if |s| > cap then s[..cap] + "..." else s
  }

  lemma NoDoubleSpaceSlice(s: string, a: nat, b: nat)
    requires NoDoubleSpace(s) && a <= b <= |s|
    ensures NoDoubleSpace(s[a..b])
  {
    var t := s[a..b];
    forall i | 0 <= i < |t| - 1
      ensures !(IsSpace(t[i]) && IsSpace(t[i + 1]))
    {
      assert t[i] == s[a + i] && t[i + 1] == s[a + i + 1];
    }
  }

  /** Trimming keeps the other two properties: it takes a slice. */
  lemma TrimShape(s: string)
    requires NoTag(s) && NoDoubleSpace(s)
    ensures NoTag(Trim(s)) && NoDoubleSpace(Trim(s)) && Trimmed(Trim(s))
  {
    var k := TrimIsSlice(s);
    var n := |Trim(s)|;
    NoTagSlice(s, k, k + n);
    NoDoubleSpaceSlice(s, k, k + n);
  }

  /** Truncating keeps the three properties: it takes a prefix and appends dots. */
  lemma TruncateShape(s: string, cap: nat)
    requires NoTag(s) && NoDoubleSpace(s) && Trimmed(s)
    ensures var r := Truncate(s, cap); NoTag(r) && NoDoubleSpace(r) && Trimmed(r)
  {
    if |s| > cap {
      var p := s[..cap];
      var r := p + "...";
      NoTagSlice(s, 0, cap);
      forall i, j | 0 <= i < j < |r| && r[i] == '<'
        ensures r[j] != '>'
      {
        assert i < cap;
        if j < cap {
          assert r[i] == s[i] && r[j] == s[j];
        }
      }
      forall i | 0 <= i < |r| - 1
        ensures !(IsSpace(r[i]) && IsSpace(r[i + 1]))
      {
        if i + 1 < cap {
          assert r[i] == s[i] && r[i + 1] == s[i + 1];
        }
      }
      if cap > 0 {
        assert r[0] == s[0];
      }
    }
  }
}

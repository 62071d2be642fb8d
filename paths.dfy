/**
 * String helpers over file paths, as PHP's `basename`, `pathinfo(..., PATHINFO_EXTENSION)`
 * and `strpos` are used by the translation importer. Paths are plain strings; they are
 * never normalised (no `.`/`..` resolution).
 */
module Paths {

  type Path = string

  /** The text after the last `sep` in `s`, or all of `s` when `sep` does not occur. */
  function AfterLast(s: string, sep: char): string
  {
    if s == [] then []
    else if s[|s| - 1] == sep then []
    else AfterLast(s[..|s| - 1], sep) + [s[|s| - 1]]
  }

  /**
   * The tail after the last separator is a suffix free of separators, and it is either
   * the whole string or preceded by a separator.
   */
  lemma {:induction false} AfterLastIsTail(s: string, sep: char)
    ensures var r := AfterLast(s, sep);
      && |r| <= |s| && r == s[|s| - |r|..]
      && sep !in r
      && (|r| == |s| || s[|s| - |r| - 1] == sep)
      && (sep in s ==> |r| < |s|)
  {
    AfterLastSuffix(s, sep);
    AfterLastBoundary(s, sep);
  }

  /** The tail after the last separator is a separator-free suffix. */
  lemma {:induction false} AfterLastSuffix(s: string, sep: char)
    ensures var r := AfterLast(s, sep);
      |r| <= |s| && r == s[|s| - |r|..] && sep !in r
  {
    if s != [] && s[|s| - 1] != sep {
      var p, c := s[..|s| - 1], s[|s| - 1];
      var rp := AfterLast(p, sep);
      AfterLastSuffix(p, sep);
      assert s == p + [c];
      assert s[|s| - |rp| - 1..] == p[|p| - |rp|..] + [c];
    }
  }

  /** The tail after the last separator is the whole string or follows a separator. */
  lemma {:induction false} AfterLastBoundary(s: string, sep: char)
    ensures var r := AfterLast(s, sep);
      |r| <= |s| && (|r| == |s| || s[|s| - |r| - 1] == sep) && (sep in s ==> |r| < |s|)
  {
    if s != [] && s[|s| - 1] != sep {
      var p, c := s[..|s| - 1], s[|s| - 1];
      var rp := AfterLast(p, sep);
      AfterLastBoundary(p, sep);
      assert AfterLast(s, sep) == rp + [c];
      if |rp| < |p| {
        assert s[|s| - |rp| - 2] == p[|p| - |rp| - 1];
      }
      if sep in s {
        assert sep in p;
      }
    }
  }

  /** PHP `basename` of a path without a trailing slash: its last component. */
  function Basename(p: Path): string
  {
    AfterLast(p, '/')
  }

  /**
   * PHP `pathinfo($name, PATHINFO_EXTENSION)`: the text after the last dot,
   * and the empty string when the name has no dot.
   */
  function Extension(name: string): string
  {
    if '.' in name then AfterLast(name, '.') else ""
  }

  /** The extension is dot-free, and a name with a dot is its stem, a dot and its extension. */
  lemma ExtensionSplits(name: string)
    ensures var r := Extension(name);
      && '.' !in r
      && ('.' in name ==> |r| < |name| && name == name[..|name| - |r| - 1] + "." + r)
      && ('.' !in name ==> r == "")
  {
    if '.' in name {
      var r := AfterLast(name, '.');
      AfterLastIsTail(name, '.');
      assert name == name[..|name| - |r| - 1] + "." + r;
    }
  }

  /** `s` ends with `suffix`. */
  predicate EndsWith(s: string, suffix: string)
  {
    |suffix| <= |s| && s[|s| - |suffix|..] == suffix
  }

  /** What follows the last separator is exactly the separator-free tail it was given. */
  lemma {:induction false} AfterLastOfTail(a: string, sep: char, e: string)
    requires sep !in e
    ensures AfterLast(a + [sep] + e, sep) == e
  {
    var s := a + [sep] + e;
    if e != [] {
      assert e[|e| - 1] in e;
      assert s[..|s| - 1] == a + [sep] + e[..|e| - 1];
      AfterLastOfTail(a, sep, e[..|e| - 1]);
      assert e == e[..|e| - 1] + [e[|e| - 1]];
    }
  }

  /** `needle` occurs in `hay` at some position (PHP `strpos($hay, $needle) !== false`). */
  predicate Contains(hay: string, needle: string)
  {
    exists i :: 0 <= i <= |hay| - |needle| && OccursAt(hay, needle, i)
  }

  /** `needle` starts at position `i` of `hay`. */
  predicate OccursAt(hay: string, needle: string, i: int)
  {
    0 <= i <= |hay| - |needle| && hay[i..i + |needle|] == needle
  }

  /** An occurrence in a string is still an occurrence once text is added on either side. */
  lemma ContainsExtended(a: string, needle: string, pre: string, post: string)
    requires Contains(a, needle)
    ensures Contains(pre + a + post, needle)
  {
    var i :| 0 <= i <= |a| - |needle| && OccursAt(a, needle, i);
    var s := pre + a + post;
    assert s[|pre| + i..|pre| + i + |needle|] == a[i..i + |needle|];
    assert OccursAt(s, needle, |pre| + i);
  }

  /**
   * Splitting at the last separator is unique: when a string is written as `a + [sep] + f`
   * with no separator in `f`, both `a` and `f` are determined.
   */
  lemma SplitAtLast(a1: string, f1: string, a2: string, f2: string, sep: char)
    requires sep !in f1 && sep !in f2
    ensures a1 + [sep] + f1 == a2 + [sep] + f2 ==> a1 == a2 && f1 == f2
  {
    var s1, s2 := a1 + [sep] + f1, a2 + [sep] + f2;
    SeparatorPositions(a1, f1, sep);
    SeparatorPositions(a2, f2, sep);
    if s1 == s2 {
      assert s1[|a1|] == sep && s1[|a2|] == sep;
      assert |a1| == |a2|;
      assert f1 == s1[|s1| - |f1|..] == f2;
      assert a1 == s1[..|a1|] == a2;
    }
  }

  lemma SeparatorPositions(a: string, f: string, sep: char)
    requires sep !in f
    ensures (a + [sep] + f)[|a|] == sep
    ensures forall j :: |a| < j < |a| + 1 + |f| ==> (a + [sep] + f)[j] != sep
  {
    var s := a + [sep] + f;
    forall j | |a| < j < |a| + 1 + |f|
      ensures s[j] != sep
    {
      assert s[j] == f[j - |a| - 1];
    }
  }
}

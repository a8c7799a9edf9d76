/** String helpers: splitting at a separator and ASCII lowercasing. */
module Text {

  /** The text after the last `sep` in `s`, or all of `s` when it holds no
      `sep`: the last piece of splitting `s` at `sep`. */
  function AfterLast(s: string, sep: char): (r: string)
    ensures |r| <= |s|
    decreases |s|
  {
    if s == [] || s[|s| - 1] == sep then ""
    else AfterLast(s[..|s| - 1], sep) + [s[|s| - 1]]
  }

  /** The piece after the last separator is the longest suffix of `s` free
      of `sep`: it holds no `sep`, it is a suffix, and when it is shorter
      than `s` the character before it is a `sep`. */
  lemma {:induction false} AfterLastSpec(s: string, sep: char)
    ensures var r := AfterLast(s, sep);
      && sep !in r
      && r == s[|s| - |r|..]
      && (|r| < |s| ==> s[|s| - |r| - 1] == sep)
    decreases |s|
  {
    if s != [] && s[|s| - 1] != sep {
      var init := s[..|s| - 1];
      AfterLastSpec(init, sep);
      var r' := AfterLast(init, sep);
      assert init[|init| - |r'|..] + [s[|s| - 1]] == s[|s| - |r'| - 1..];
    }
  }

  /** The text before the first `sep` in `s`, or all of `s` when it holds
      no `sep`: the longest prefix free of `sep`. */
  function BeforeFirst(s: string, sep: char): (r: string)
    ensures sep !in r
    ensures |r| <= |s| && r == s[..|r|]
    ensures |r| < |s| ==> s[|r|] == sep
    decreases |s|
  {
    if s == [] || s[0] == sep then ""
    else [s[0]] + BeforeFirst(s[1..], sep)
  }

  /** Splitting `a + [sep] + b` at its last `sep` gives back `b` when `b` holds no `sep`. */
  lemma AfterLastOfJoin(a: string, sep: char, b: string)
    requires sep !in b
    ensures AfterLast(a + [sep] + b, sep) == b
  {
    var s := a + [sep] + b;
    var r := AfterLast(s, sep);
    AfterLastSpec(s, sep);
    assert s[|a|] == sep;
    assert r == s[|s| - |b|..] == b;
  }

  /** Splitting `a + [sep] + b` at its first `sep` gives back `a` when `a` holds no `sep`. */
  lemma BeforeFirstOfJoin(a: string, sep: char, b: string)
    requires sep !in a
    ensures BeforeFirst(a + [sep] + b, sep) == a
  {
    var s := a + [sep] + b;
    var r := BeforeFirst(s, sep);
    assert s[|a|] == sep;
    assert r == s[..|a|] == a;
  }

  /** ASCII lowercasing of one character. */
  function LowerChar(c: char): char
  {
    if 'A' <= c <= 'Z' then (c as int + 32) as char else c
  }

  /** ASCII lowercasing of a string, character by character. */
  function AsciiLower(s: string): (r: string)
    ensures |r| == |s|
    ensures forall i :: 0 <= i < |s| ==> r[i] == LowerChar(s[i])
    decreases |s|
  {
    if s == [] then [] else [LowerChar(s[0])] + AsciiLower(s[1..])
  }

  /** Lowercasing yields "pdf" exactly for the eight spellings of pdf in any case. */
  lemma {:induction false} LowerIsPdf(e: string)
    ensures AsciiLower(e) == "pdf" <==>
      |e| == 3 && e[0] in "pP" && e[1] in "dD" && e[2] in "fF"
  {
    var r := AsciiLower(e);
    if r == "pdf" {
      assert |e| == 3;
      assert LowerChar(e[0]) == 'p' && LowerChar(e[1]) == 'd' && LowerChar(e[2]) == 'f';
    }
    if |e| == 3 && e[0] in "pP" && e[1] in "dD" && e[2] in "fF" {
      assert r[0] == 'p' && r[1] == 'd' && r[2] == 'f';
      assert r == "pdf";
    }
  }
}

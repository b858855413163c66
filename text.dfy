/** String primitives the application index relies on, stated as Python's
    string operations behave: `str.split()` with no separator, ASCII case
    folding (the folding SQLite's NOCASE collation performs), `str.replace(' ', '-')`,
    the substring test `needle in hay` and `os.path.basename`. */
module Text {

  /** The characters Python's argument-less `str.split()` treats as separators
      (ASCII whitespace). */
  predicate IsSpace(c: char) {
    c == ' ' || c == '\t' || c == '\n' || c == '\r' || c == 11 as char || c == 12 as char
  }

  /** A word is a non-empty run of non-separator characters. */
  predicate IsWord(w: string) {
    w != [] && forall i :: 0 <= i < |w| ==> !IsSpace(w[i])
  }

  /** The end of the word that starts at `i`: the first separator at or after
      `i`, or the end of `s` (see `WordEndIsFirstSeparator`). */
  function WordEnd(s: string, i: nat): (j: nat)
    requires i <= |s|
    ensures i <= j <= |s|
    decreases |s| - i
  {
    if i == |s| || IsSpace(s[i]) then i else WordEnd(s, i + 1)
  }

  /** `WordEnd` stops at exactly the first separator. */
  lemma {:induction false} WordEndIsFirstSeparator(s: string, i: nat, j: nat)
    requires i <= j <= |s|
    requires forall k :: i <= k < j ==> !IsSpace(s[k])
    requires j == |s| || IsSpace(s[j])
    ensures WordEnd(s, i) == j
    decreases j - i
  {
    if i < j {
      WordEndIsFirstSeparator(s, i + 1, j);
    }
  }

  /** Everything `WordEnd` skips is a non-separator. */
  lemma {:induction false} WordEndSkipsWordChars(s: string, i: nat)
    requires i <= |s|
    ensures forall k :: i <= k < WordEnd(s, i) ==> !IsSpace(s[k])
    decreases |s| - i
  {
    if i < |s| && !IsSpace(s[i]) {
      WordEndSkipsWordChars(s, i + 1);
    }
  }

  /** Python's `s.split()`: the words of `s`, in order, separators dropped
      (see `SplitGivesWords` and `SplitWord`). */
  function Split(s: string): (words: seq<string>)
    ensures |s| == 0 ==> words == []
    decreases |s|
  {
    if |s| == 0 then []
    else if IsSpace(s[0]) then Split(s[1..])
    else
      var j := WordEnd(s, 0);
      [s[..j]] + Split(s[j..])
  }

  /** Every piece `Split` returns is a word. */
  lemma {:induction false} SplitGivesWords(s: string)
    ensures forall k :: 0 <= k < |Split(s)| ==> IsWord(Split(s)[k])
    decreases |s|
  {
    if |s| == 0 {
    } else if IsSpace(s[0]) {
      SplitGivesWords(s[1..]);
    } else {
      var j := WordEnd(s, 0);
      WordEndSkipsWordChars(s, 0);
      SplitGivesWords(s[j..]);
    }
  }

  /** Splitting never loses a word: a word followed by a separator (or by
      nothing) comes out first, and the rest is split on its own. */
  lemma SplitWord(w: string, rest: string)
    requires IsWord(w)
    requires rest == [] || IsSpace(rest[0])
    ensures Split(w + rest) == [w] + Split(rest)
  {
    var s := w + rest;
    WordEndIsFirstSeparator(s, 0, |w|);
    assert s[..|w|] == w;
    assert s[|w|..] == rest;
  }

  /** Leading separators do not change the split. */
  lemma {:induction false} SplitSpace(c: char, rest: string)
    requires IsSpace(c)
    ensures Split([c] + rest) == Split(rest)
  {
    assert ([c] + rest)[1..] == rest;
  }

  function LowerChar(c: char): (d: char)
    ensures 'A' <= c <= 'Z' ==> d as int == c as int + 32
    ensures !('A' <= c <= 'Z') ==> d == c
  {
    if 'A' <= c <= 'Z' then (c as int + 32) as char else c
  }

  /** ASCII lower-casing, character by character. */
  function Lower(s: string): (r: string)
    ensures |r| == |s|
    ensures forall i :: 0 <= i < |s| ==> r[i] == LowerChar(s[i])
  {
    seq(|s|, i requires 0 <= i < |s| => LowerChar(s[i]))
  }

  /** Python's `s.replace(' ', '-')`. */
  function Dashed(s: string): (r: string)
    ensures |r| == |s|
    ensures forall i :: 0 <= i < |s| ==> r[i] == (if s[i] == ' ' then '-' else s[i])
  {
    seq(|s|, i requires 0 <= i < |s| => if s[i] == ' ' then '-' else s[i])
  }

  /** Python's `needle in hay` on strings: `needle` occurs contiguously in `hay`
      at some offset (the empty string occurs in every string). */
  predicate Contains(hay: string, needle: string) {
    exists at :: 0 <= at <= |hay| && needle <= hay[at..]
  }

  /** An occurrence at a known offset witnesses containment. */
  lemma ContainsAt(hay: string, needle: string, at: nat)
    requires at + |needle| <= |hay| && hay[at..at + |needle|] == needle
    ensures Contains(hay, needle)
  {
    assert needle <= hay[at..];
  }

  /** A needle holding a character the hay lacks cannot occur in it. */
  lemma {:induction false} MissingCharNotContained(hay: string, needle: string, c: char)
    requires c in needle && c !in hay
    ensures !Contains(hay, needle)
  {
  }

  /** Python's `os.path.basename`: what follows the last '/', or all of `path`
      when it holds none (see `BasenameIsLastComponent`). */
  function Basename(path: string): (b: string)
    ensures '/' !in b
    ensures |b| <= |path|
  {
    if '/' !in path then path else Basename(path[1..])
  }

  /** The base name is the longest suffix of `path` without a '/': it ends
      `path`, and it is either all of `path` or preceded by a '/'. */
  lemma {:induction false} BasenameIsLastComponent(path: string)
    ensures var b := Basename(path);
      b == path[|path| - |b|..] && (|b| == |path| || path[|path| - |b| - 1] == '/')
  {
    if '/' in path {
      var b := Basename(path[1..]);
      BasenameIsLastComponent(path[1..]);
      assert path[1..][|path| - 1 - |b|..] == path[|path| - |b|..];
      if |b| == |path| - 1 {
        assert path == [path[0]] + b;
      }
    }
  }

  /** A directory prefix is dropped, however deep. */
  lemma {:induction false} BasenameAfterSlash(dir: string, name: string)
    requires '/' !in name
    ensures Basename(dir + "/" + name) == name
  {
    var path := dir + "/" + name;
    if dir == [] {
      assert path[1..] == name;
    } else {
      assert path[1..] == dir[1..] + "/" + name;
      BasenameAfterSlash(dir[1..], name);
    }
  }
}

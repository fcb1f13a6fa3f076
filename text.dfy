/**
  The few Python `str` built-ins the catalog relies on, written out over
  `seq<char>`: `rfind`, `find`, `startswith`, `removeprefix`, `split()` and
  `splitlines()`. Whitespace is ` \t\n\r\v\f`, the set `\s` matches under
  `re.ASCII`; `str.split()` would also cut at `\x1c` to `\x1f` and at Unicode
  whitespace, which are not modelled.
 */
module Text {

  /** Whitespace as the six characters of `\s` under `re.ASCII`; Unicode whitespace is not modelled. */
  predicate IsSpace(c: char)
  {
    c == ' ' || c == '\t' || c == '\n' || c == '\r' || c == '\U{000B}' || c == '\U{000C}'
  }

  predicate NoSpace(s: string)
  {
    forall i :: 0 <= i < |s| ==> !IsSpace(s[i])
  }

  predicate AllSpace(s: string)
  {
    forall i :: 0 <= i < |s| ==> IsSpace(s[i])
  }

  /** The last index below `end` at which `c` occurs in `s`, or -1. */
  function LastIndexBelow(s: string, c: char, end: int): (r: int)
    requires end <= |s|
    ensures -1 <= r < end || (r == -1 && end <= 0)
    ensures r >= 0 ==> s[r] == c
    ensures forall j :: r < j < end ==> s[j] != c
    decreases end
  {
    if end <= 0 then -1
    else if s[end - 1] == c then end - 1
    else LastIndexBelow(s, c, end - 1)
  }

  /** `s.rfind(c)`: the last index of `c` in `s`, or -1. */
  function LastIndexOf(s: string, c: char): (r: int)
    ensures -1 <= r < |s|
    ensures r >= 0 ==> s[r] == c
    ensures forall j :: r < j < |s| ==> s[j] != c
  {
    LastIndexBelow(s, c, |s|)
  }

  predicate OccursAt(s: string, pat: string, i: int)
  {
    0 <= i <= |s| && pat <= s[i..]
  }

  /** Occurrences in the tail of `s` are those in `s` one place further on. */
  lemma OccursAtTail(s: string, pat: string, i: nat)
    requires s != []
    ensures OccursAt(s[1..], pat, i) <==> OccursAt(s, pat, i + 1)
  {
    if i + 1 <= |s| {
      assert s[1..][i..] == s[i + 1..];
    }
  }

  /** `s.find(pat)`: the first index at which `pat` occurs in `s`, or -1. */
  function Find(s: string, pat: string): (r: int)
    ensures -1 <= r <= |s|
    ensures r >= 0 ==> OccursAt(s, pat, r)
    ensures forall j :: 0 <= j && (r < 0 || j < r) ==> !OccursAt(s, pat, j)
  {
    if pat <= s then 0
    else if s == [] then -1
    else
      var k := Find(s[1..], pat);
      assert s[0..] == s;
      assert forall j :: 1 <= j <= |s| ==> s[1..][j - 1..] == s[j..];
      assert forall j :: 1 <= j ==> (OccursAt(s, pat, j) <==> OccursAt(s[1..], pat, j - 1));
      if k < 0 then -1 else k + 1
  }

  /** `pat in s` for strings. */
  predicate Contains(s: string, pat: string)
  {
    Find(s, pat) >= 0
  }

  /** `s.removeprefix(prefix)`. */
  function RemovePrefix(s: string, prefix: string): (r: string)
    ensures prefix <= s ==> prefix + r == s
    ensures !(prefix <= s) ==> r == s
  {
    if prefix <= s then s[|prefix|..] else s
  }

  /** The end of the run of whitespace starting at index `i` of `s`. */
  function SpacesFrom(s: string, i: nat): (j: nat)
    requires i <= |s|
    ensures i <= j <= |s|
    ensures j == |s| || !IsSpace(s[j])
    decreases |s| - i
  {
    if i < |s| && IsSpace(s[i]) then SpacesFrom(s, i + 1) else i
  }

  /** Everything the run covers is whitespace. */
  lemma {:induction false} SpacesFromCovers(s: string, i: nat)
    requires i <= |s|
    ensures forall k :: i <= k < SpacesFrom(s, i) ==> IsSpace(s[k])
    decreases |s| - i
  {
    if i < |s| && IsSpace(s[i]) {
      SpacesFromCovers(s, i + 1);
    }
  }

  /** Drops the leading whitespace of `s`, as a greedy `\s*` does. */
  function SkipSpaces(s: string): (r: string)
    ensures |r| <= |s| && r == s[|s| - |r|..]
    ensures AllSpace(s[..|s| - |r|])
    ensures r == [] || !IsSpace(r[0])
  {
    SpacesFromCovers(s, 0);
    assert forall k :: 0 <= k < SpacesFrom(s, 0) ==> s[..SpacesFrom(s, 0)][k] == s[k];
    s[SpacesFrom(s, 0)..]
  }

  function Flatten(xs: seq<string>): string
  {
    if xs == [] then [] else xs[0] + Flatten(xs[1..])
  }

  lemma FlattenCons(x: string, xs: seq<string>)
    ensures Flatten([x] + xs) == x + Flatten(xs)
  {
    assert ([x] + xs)[1..] == xs;
  }

  function WithoutSpaces(s: string): (r: string)
    ensures NoSpace(r)
  {
    if s == [] then []
    else if IsSpace(s[0]) then WithoutSpaces(s[1..])
    else [s[0]] + WithoutSpaces(s[1..])
  }

  /** `split()` of `s` when the word `word` is already under way. */
  function SplitWords(s: string, word: string): (r: seq<string>)
    requires NoSpace(word)
    ensures forall i :: 0 <= i < |r| ==> r[i] != [] && NoSpace(r[i])
    decreases |s|
  {
    if s == [] then (if word == [] then [] else [word])
    else if IsSpace(s[0]) then (if word == [] then SplitWords(s[1..], []) else [word] + SplitWords(s[1..], []))
    else
      assert forall i :: 0 <= i < |word + [s[0]]| ==> (word + [s[0]])[i] == if i < |word| then word[i] else s[0];
      SplitWords(s[1..], word + [s[0]])
  }

  /** `s.split()`: the maximal runs of non-whitespace characters, in order. */
  function Split(s: string): (r: seq<string>)
    ensures forall i :: 0 <= i < |r| ==> r[i] != [] && NoSpace(r[i])
  {
    SplitWords(s, [])
  }

  lemma {:induction false} SplitWordsKeepsText(s: string, word: string)
    requires NoSpace(word)
    ensures Flatten(SplitWords(s, word)) == word + WithoutSpaces(s)
    decreases |s|
  {
    if s == [] {
      if word != [] {
        FlattenCons(word, []);
      }
    } else if IsSpace(s[0]) {
      SplitWordsKeepsText(s[1..], []);
      if word != [] {
        FlattenCons(word, SplitWords(s[1..], []));
      }
    } else {
      var w := word + [s[0]];
      assert forall i :: 0 <= i < |w| ==> w[i] == if i < |word| then word[i] else s[0];
      SplitWordsKeepsText(s[1..], w);
      assert w + WithoutSpaces(s[1..]) == word + ([s[0]] + WithoutSpaces(s[1..]));
    }
  }

  /** `split()` loses nothing but the whitespace: the words put back together are the text. */
  lemma SplitKeepsText(s: string)
    ensures Flatten(Split(s)) == WithoutSpaces(s)
  {
    SplitWordsKeepsText(s, []);
  }

  /** The words laid out between the gaps: `gaps[0] + words[0] + gaps[1] + ... + words[n-1] + gaps[n]`. */
  function Interleave(gaps: seq<string>, words: seq<string>): string
    requires |gaps| == |words| + 1
    decreases |words|
  {
    if words == [] then gaps[0] else gaps[0] + words[0] + Interleave(gaps[1..], words[1..])
  }

  /** Whitespace gaps, of which those between two words are not empty. */
  predicate Gaps(gaps: seq<string>)
  {
    && (forall i :: 0 <= i < |gaps| ==> AllSpace(gaps[i]))
    && (forall i :: 0 < i < |gaps| - 1 ==> gaps[i] != [])
  }

  /** Putting `c` in front of a layout widens its first gap. */
  lemma InterleaveFront(c: string, gaps: seq<string>, words: seq<string>)
    requires |gaps| == |words| + 1
    ensures c + Interleave(gaps, words) == Interleave([c + gaps[0]] + gaps[1..], words)
  {
    var g := [c + gaps[0]] + gaps[1..];
    assert g[1..] == gaps[1..];
  }

  /** Widening the first gap with whitespace keeps the gaps whitespace. */
  lemma GapsFront(c: char, g: seq<string>)
    requires IsSpace(c) && g != [] && Gaps(g)
    ensures Gaps([[c] + g[0]] + g[1..])
  {
    var front := [[c] + g[0]] + g[1..];
    assert AllSpace([c] + g[0]);
    forall i | 0 < i < |front| ensures front[i] == g[i] { }
  }

  /** An empty gap in front of a layout whose first gap is not empty. */
  lemma GapsCons(g: seq<string>)
    requires g != [] && g[0] != [] && Gaps(g)
    ensures Gaps([[]] + g)
  {
    var gaps := [[]] + g;
    forall i | 0 < i < |gaps| ensures gaps[i] == g[i - 1] { }
  }

  /** A word behind an empty first gap. */
  lemma InterleaveCons(word: string, g: seq<string>, rest: seq<string>)
    requires |g| == |rest| + 1
    ensures Interleave([[]] + g, [word] + rest) == word + Interleave(g, rest)
  {
    var front := [[]] + g;
    var words := [word] + rest;
    assert front[1..] == g;
    assert words[1..] == rest;
    assert Interleave(front, words) == front[0] + words[0] + Interleave(g, rest);
    assert front[0] + words[0] == word;
  }

  /** A whitespace character `c` in front of the layout `g` of `rest` ends `word`. */
  lemma WordsAtSpace(c: char, word: string, rest: seq<string>, g: seq<string>) returns (gaps: seq<string>)
    requires IsSpace(c) && |g| == |rest| + 1 && Gaps(g)
    ensures var r := if word == [] then rest else [word] + rest;
      && |gaps| == |r| + 1 && Gaps(gaps)
      && (word != [] ==> gaps[0] == [])
      && word + [c] + Interleave(g, rest) == Interleave(gaps, r)
  {
    InterleaveFront([c], g, rest);
    GapsFront(c, g);
    var front := [[c] + g[0]] + g[1..];
    if word == [] {
      gaps := front;
    } else {
      GapsCons(front);
      InterleaveCons(word, front, rest);
      gaps := [[]] + front;
    }
  }

  /** The layout of the last word, if any. */
  lemma WordsAtEnd(word: string) returns (gaps: seq<string>)
    ensures var r := if word == [] then [] else [word];
      && |gaps| == |r| + 1 && Gaps(gaps)
      && (word != [] ==> gaps[0] == [])
      && word == Interleave(gaps, r)
  {
    if word == [] {
      gaps := [[]];
    } else {
      gaps := [[], []];
      assert Interleave(gaps, [word]) == [] + word + Interleave([[]], []);
    }
  }

  lemma {:induction false} SplitWordsLayout(s: string, word: string) returns (gaps: seq<string>)
    requires NoSpace(word)
    ensures |gaps| == |SplitWords(s, word)| + 1 && Gaps(gaps)
    ensures word != [] ==> gaps[0] == []
    ensures word + s == Interleave(gaps, SplitWords(s, word))
    decreases |s|
  {
    if s == [] {
      gaps := WordsAtEnd(word);
    } else if IsSpace(s[0]) {
      var g := SplitWordsLayout(s[1..], []);
      gaps := WordsAtSpace(s[0], word, SplitWords(s[1..], []), g);
      assert word + s == word + [s[0]] + s[1..];
    } else {
      var w := word + [s[0]];
      assert forall i :: 0 <= i < |w| ==> w[i] == if i < |word| then word[i] else s[0];
      gaps := SplitWordsLayout(s[1..], w);
      assert word + s == w + s[1..];
    }
  }

  /**
    `split()` cuts at the whitespace runs and nowhere else: the text is its
    words laid out between whitespace gaps, each gap between two words being
    non-empty, so the words are the maximal runs without whitespace.
   */
  lemma SplitLayout(s: string) returns (gaps: seq<string>)
    ensures |gaps| == |Split(s)| + 1 && Gaps(gaps)
    ensures s == Interleave(gaps, Split(s))
  {
    gaps := SplitWordsLayout(s, []);
  }

  /** The characters at which `str.splitlines()` ends a line. */
  predicate IsLineBoundary(c: char)
  {
    c == '\n' || c == '\r' || c == '\U{000B}' || c == '\U{000C}' || c == '\U{001C}' ||
    c == '\U{001D}' || c == '\U{001E}' || c == '\U{0085}' || c == '\U{2028}' || c == '\U{2029}'
  }

  predicate NoBoundary(s: string)
  {
    forall i :: 0 <= i < |s| ==> !IsLineBoundary(s[i])
  }

  /**
    `splitlines()` of `s` when the line `line` is already under way: a
    boundary ends the line (`\r\n` counts as one), and the end of the text
    ends it only when it has begun.
   */
  function Lines(s: string, line: string): (r: seq<string>)
    requires NoBoundary(line)
    ensures forall i :: 0 <= i < |r| ==> NoBoundary(r[i])
    decreases |s|
  {
    if s == [] then (if line == [] then [] else [line])
    else if s[0] == '\r' && |s| > 1 && s[1] == '\n' then [line] + Lines(s[2..], [])
    else if IsLineBoundary(s[0]) then [line] + Lines(s[1..], [])
    else
      assert forall i :: 0 <= i < |line + [s[0]]| ==> (line + [s[0]])[i] == if i < |line| then line[i] else s[0];
      Lines(s[1..], line + [s[0]])
  }

  /** `s.splitlines()`. */
  function SplitLines(s: string): (r: seq<string>)
    ensures forall i :: 0 <= i < |r| ==> NoBoundary(r[i])
  {
    Lines(s, [])
  }

  function WithoutBoundaries(s: string): (r: string)
    ensures NoBoundary(r)
  {
    if s == [] then []
    else if IsLineBoundary(s[0]) then WithoutBoundaries(s[1..])
    else [s[0]] + WithoutBoundaries(s[1..])
  }

  lemma WithoutBoundariesOfCrLf(s: string)
    requires |s| > 1 && s[0] == '\r' && s[1] == '\n'
    ensures WithoutBoundaries(s) == WithoutBoundaries(s[2..])
  {
    assert s[1..][1..] == s[2..];
    assert WithoutBoundaries(s[1..]) == WithoutBoundaries(s[2..]);
  }

  lemma {:induction false} LinesKeepText(s: string, line: string)
    requires NoBoundary(line)
    ensures Flatten(Lines(s, line)) == line + WithoutBoundaries(s)
    decreases |s|
  {
    if s == [] {
      if line != [] {
        FlattenCons(line, []);
      }
    } else if s[0] == '\r' && |s| > 1 && s[1] == '\n' {
      LinesKeepText(s[2..], []);
      FlattenCons(line, Lines(s[2..], []));
      WithoutBoundariesOfCrLf(s);
    } else if IsLineBoundary(s[0]) {
      LinesKeepText(s[1..], []);
      FlattenCons(line, Lines(s[1..], []));
    } else {
      var l := line + [s[0]];
      assert forall i :: 0 <= i < |l| ==> l[i] == if i < |line| then line[i] else s[0];
      LinesKeepText(s[1..], l);
      assert l + WithoutBoundaries(s[1..]) == line + ([s[0]] + WithoutBoundaries(s[1..]));
    }
  }

  /** A line terminator `splitlines()` recognises: one boundary character, or `\r\n`. */
  predicate LineEnd(e: string)
  {
    (|e| == 1 && IsLineBoundary(e[0])) || e == "\r\n"
  }

  /** Each line followed by its terminator: `lines[0] + ends[0] + lines[1] + ends[1] + ...`. */
  function Terminated(lines: seq<string>, ends: seq<string>): string
    requires |lines| == |ends|
    decreases |lines|
  {
    if lines == [] then [] else lines[0] + ends[0] + Terminated(lines[1..], ends[1..])
  }

  /**
    `ends` terminate `lines`: every line has a terminator, except that a
    non-empty last line may have none, and a lone `\r` is never the first
    half of a `\r\n` (the `\n` does not end an empty line after it).
   */
  predicate Ends(lines: seq<string>, ends: seq<string>)
    requires |lines| == |ends|
  {
    && (forall i :: 0 <= i < |ends| ==> LineEnd(ends[i]) || (i == |ends| - 1 && ends[i] == [] && lines[i] != []))
    && (forall i :: 0 <= i < |ends| - 1 && ends[i] == "\r" && lines[i + 1] == [] ==> ends[i + 1] != "\n")
  }

  /** One more line and terminator in front keep the terminators well placed. */
  lemma EndsCons(line: string, e: string, lines: seq<string>, ends: seq<string>)
    requires |lines| == |ends| && Ends(lines, ends) && LineEnd(e)
    requires e == "\r" && lines != [] && lines[0] == [] ==> ends[0] != "\n"
    ensures Ends([line] + lines, [e] + ends)
    ensures Terminated([line] + lines, [e] + ends) == line + e + Terminated(lines, ends)
  {
    var l := [line] + lines;
    var n := [e] + ends;
    assert l[1..] == lines && n[1..] == ends;
    forall i | 0 <= i < |n|
      ensures LineEnd(n[i]) || (i == |n| - 1 && n[i] == [] && l[i] != [])
    {
      if i > 0 { assert n[i] == ends[i - 1] && l[i] == lines[i - 1]; }
    }
    forall i | 0 <= i < |n| - 1 && n[i] == "\r" && l[i + 1] == []
      ensures n[i + 1] != "\n"
    {
      if i > 0 { assert n[i] == ends[i - 1] && l[i + 1] == lines[i] && n[i + 1] == ends[i]; }
    }
  }

  /** The layout of the last line, if any: it has no terminator. */
  lemma LinesAtEnd(line: string) returns (ends: seq<string>)
    ensures var r := if line == [] then [] else [line];
      |ends| == |r| && Ends(r, ends) && line == Terminated(r, ends)
  {
    if line == [] {
      ends := [];
    } else {
      ends := [[]];
      assert Terminated([line], ends) == line + [] + Terminated([], []);
    }
  }

  /** A `\r` not followed by `\n` is not the first half of a `\r\n` end. */
  lemma LoneReturn(s: string, rest: seq<string>, e: seq<string>)
    requires s != [] && s[0] == '\r' && !(|s| > 1 && s[1] == '\n')
    requires |rest| == |e| && s[1..] == Terminated(rest, e)
    ensures rest != [] && rest[0] == [] ==> e[0] != "\n"
  {
    if rest != [] && rest[0] == [] {
      var t := Terminated(rest[1..], e[1..]);
      assert Terminated(rest, e) == rest[0] + e[0] + t;
      assert s[1..] == e[0] + t;
      assert e[0] != [] ==> s[1] == e[0][0];
    }
  }

  /** The line `line` ends at the terminator `s[..k]`, in front of the layout `e` of the rest. */
  lemma LinesBreak(s: string, k: nat, line: string, rest: seq<string>, e: seq<string>) returns (ends: seq<string>)
    requires k <= |s| && LineEnd(s[..k]) && (k == 1 && s[0] == '\r' ==> !(|s| > 1 && s[1] == '\n'))
    requires |rest| == |e| && Ends(rest, e) && s[k..] == Terminated(rest, e)
    ensures |ends| == |rest| + 1 && Ends([line] + rest, ends)
    ensures line + s == Terminated([line] + rest, ends)
  {
    if k == 1 && s[0] == '\r' {
      LoneReturn(s, rest, e);
    }
    EndsCons(line, s[..k], rest, e);
    ends := [s[..k]] + e;
    assert line + s == line + s[..k] + s[k..] by {
      assert s == s[..k] + s[k..];
    }
  }

  lemma {:induction false} LinesLayout(s: string, line: string) returns (ends: seq<string>)
    requires NoBoundary(line)
    ensures |ends| == |Lines(s, line)| && Ends(Lines(s, line), ends)
    ensures line + s == Terminated(Lines(s, line), ends)
    decreases |s|
  {
    if s == [] {
      ends := LinesAtEnd(line);
    } else if s[0] == '\r' && |s| > 1 && s[1] == '\n' {
      var e := LinesLayout(s[2..], []);
      assert s[..2] == "\r\n";
      ends := LinesBreak(s, 2, line, Lines(s[2..], []), e);
    } else if IsLineBoundary(s[0]) {
      var e := LinesLayout(s[1..], []);
      assert s[..1] == [s[0]];
      ends := LinesBreak(s, 1, line, Lines(s[1..], []), e);
    } else {
      var l := line + [s[0]];
      assert forall i :: 0 <= i < |l| ==> l[i] == if i < |line| then line[i] else s[0];
      ends := LinesLayout(s[1..], l);
      assert line + s == l + s[1..];
    }
  }

  /**
    `splitlines()` cuts at the terminators and nowhere else: the text is its
    lines, each followed by one terminator (`\r\n` counting as one), the last
    of them optional when the last line is not empty.
   */
  lemma SplitLinesLayout(s: string) returns (ends: seq<string>)
    ensures |ends| == |SplitLines(s)| && Ends(SplitLines(s), ends)
    ensures s == Terminated(SplitLines(s), ends)
  {
    ends := LinesLayout(s, []);
  }

  /** `splitlines()` drops exactly the boundary characters: the lines joined back are the text without them. */
  lemma SplitLinesKeepsText(s: string)
    ensures Flatten(SplitLines(s)) == WithoutBoundaries(s)
  {
    LinesKeepText(s, []);
  }
}

/**
  scraping.py: reading `nm` listings into defined and undefined symbols,
  reading GNU ld scripts into the libraries they stand for, and folding one
  scanned library into the catalog.
 */
module Scraping {
  import opened Options
  import opened Text
  import opened Paths
  import opened Catalog

  // ---------------------------------------------------------------------
  // nm records
  // ---------------------------------------------------------------------

  predicate IsHexDigit(c: char)
  {
    '0' <= c <= '9' || 'a' <= c <= 'f'
  }

  /** Sixteen lower-case hex digits: the value column of an nm record. */
  predicate IsAddress(a: string)
  {
    |a| == 16 && forall i :: 0 <= i < 16 ==> IsHexDigit(a[i])
  }

  /** The symbol types the record pattern accepts. */
  predicate IsTypeLetter(c: char)
  {
    || c == 'A' || c == 'B' || c == 'b' || c == 'C' || c == 'c' || c == 'D' || c == 'd'
    || c == 'G' || c == 'g' || c == 'R' || c == 'r' || c == 'S' || c == 's' || c == 'T'
    || c == 't' || c == 'U' || c == 'u' || c == 'V' || c == 'v' || c == 'W' || c == 'w'
  }

  /** One matched line of the listing: the type letter and the symbol text. */
  datatype Record = Record(kind: char, symbol: string)

  /** The line opens with an address. */
  predicate HasAddress(line: string)
  {
    |line| >= 16 && forall i :: 0 <= i < 16 ==> IsHexDigit(line[i])
  }

  /**
    `NM_REGEX.match(line)`: an optional address, whitespace, a type letter,
    whitespace and the symbol, which is the rest of the line after the
    (greedy) second run of whitespace.
   */
  function ParseRecord(line: string): (r: Option<Record>)
    ensures r.Some? ==> IsTypeLetter(r.value.kind) && (r.value.symbol == [] || !IsSpace(r.value.symbol[0]))
  {
    var a := if HasAddress(line) then 16 else 0;
    var p := SpacesFrom(line, a);
    if p == a || p == |line| || !IsTypeLetter(line[p]) then None
    else
      var q := SpacesFrom(line, p + 1);
      if q == p + 1 then None else Some(Record(line[p], line[q..]))
  }

  /** `line` is laid out as the record pattern describes, with these parts. */
  predicate RecordShape(line: string, addr: string, gap1: string, kind: char, gap2: string, symbol: string)
  {
    && line == addr + gap1 + [kind] + gap2 + symbol
    && (addr == [] || IsAddress(addr))
    && gap1 != [] && AllSpace(gap1)
    && IsTypeLetter(kind)
    && gap2 != [] && AllSpace(gap2)
  }

  /** The whitespace run from `i` ends at the first later non-blank. */
  lemma {:induction false} SpacesFromAt(s: string, i: nat, j: nat)
    requires i <= j <= |s|
    requires forall k :: i <= k < j ==> IsSpace(s[k])
    requires j == |s| || !IsSpace(s[j])
    ensures SpacesFrom(s, i) == j
    decreases j - i
  {
    if i < j {
      assert IsSpace(s[i]);
      SpacesFromAt(s, i + 1, j);
    }
  }

  /** Whatever the scanner accepts is laid out as the pattern describes. */
  lemma ParseRecordSound(line: string)
    requires ParseRecord(line).Some?
    ensures exists addr, gap1, gap2 :: RecordShape(line, addr, gap1, ParseRecord(line).value.kind, gap2, ParseRecord(line).value.symbol)
  {
    var a, p, q := ParseRecordCuts(line);
    CutThrice(line, a, p, q);
    assert RecordShape(line, line[..a], line[a..p], line[p], line[p + 1..q], line[q..]);
  }

  /** Where the scanner cut an accepted line: after the address column, at the type letter, and after the blanks that follow it. */
  lemma ParseRecordCuts(line: string) returns (a: nat, p: nat, q: nat)
    requires ParseRecord(line).Some?
    ensures a == (if HasAddress(line) then 16 else 0) && p == SpacesFrom(line, a) && q == SpacesFrom(line, p + 1)
    ensures a < p < q <= |line| && IsTypeLetter(line[p])
    ensures ParseRecord(line).value == Record(line[p], line[q..])
    ensures (line[..a] == [] || IsAddress(line[..a])) && AllSpace(line[a..p]) && AllSpace(line[p + 1..q])
  {
    a := if HasAddress(line) then 16 else 0;
    p := SpacesFrom(line, a);
    q := SpacesFrom(line, p + 1);
    RunIsSpace(line, a);
    RunIsSpace(line, p + 1);
  }

  /** A line cut before `a`, around `p` and before `q` is the concatenation of its pieces. */
  lemma CutThrice(line: string, a: nat, p: nat, q: nat)
    requires a <= p < q <= |line|
    ensures line == line[..a] + line[a..p] + [line[p]] + line[p + 1..q] + line[q..]
  {
    assert line == line[..a] + line[a..p] + line[p..p + 1] + line[p + 1..q] + line[q..];
    assert line[p..p + 1] == [line[p]];
  }

  /** The run of blanks the scanner skips from `i` is all whitespace. */
  lemma RunIsSpace(line: string, i: nat)
    requires i <= |line|
    ensures AllSpace(line[i..SpacesFrom(line, i)])
  {
    SpacesFromCovers(line, i);
    var gap := line[i..SpacesFrom(line, i)];
    forall k | 0 <= k < |gap| ensures IsSpace(gap[k]) {
      assert gap[k] == line[i + k];
    }
  }

  /** The scanner's verdict, once the ends of the two whitespace runs are known. */
  lemma ParseRecordAt(line: string, a: nat, p: nat, q: nat, kind: char, symbol: string)
    requires a <= p < q <= |line|
    requires (if HasAddress(line) then 16 else 0) == a
    requires SpacesFrom(line, a) == p && p != a && IsTypeLetter(line[p])
    requires SpacesFrom(line, p + 1) == q != p + 1
    requires line[p] == kind && line[q..] == symbol
    ensures ParseRecord(line) == Some(Record(kind, symbol))
  {
  }

  lemma DropDrop(s: string, i: nat, j: nat)
    requires i + j <= |s|
    ensures s[i..][j..] == s[i + j..]
  {
  }

  /** A line opening with an address, or with a blank, has the address column it seems to have. */
  lemma AddressOfShape(line: string, addr: string, rest: string)
    requires line == addr + rest && (addr == [] || IsAddress(addr))
    requires rest != [] && IsSpace(rest[0])
    ensures (if HasAddress(line) then 16 else 0) == |addr|
  {
    if addr == [] {
      assert line[0] == rest[0];
    } else {
      assert forall k :: 0 <= k < 16 ==> line[k] == addr[k];
    }
  }

  /** A run of blanks at index `i` ends where the blanks of `rest` do. */
  lemma SpaceRun(line: string, i: nat, gap: string, rest: string) returns (j: nat)
    requires i <= |line| && line[i..] == gap + rest && AllSpace(gap)
    ensures j == SpacesFrom(line, i) == i + |gap| + SpacesFrom(rest, 0)
  {
    var n := SpacesFrom(rest, 0);
    SpacesFromCovers(rest, 0);
    forall k | i <= k < i + |gap| + n
      ensures IsSpace(line[k])
    {
      assert line[k] == line[i..][k - i];
      if k - i >= |gap| {
        assert line[i..][k - i] == rest[k - i - |gap|];
      }
    }
    if i + |gap| + n < |line| {
      assert line[i + |gap| + n] == line[i..][|gap| + n] == rest[n];
    }
    SpacesFromAt(line, i, i + |gap| + n);
    j := i + |gap| + n;
  }

  lemma TypeLetterIsNotSpace(c: char)
    requires IsTypeLetter(c)
    ensures !IsSpace(c)
  {
  }

  /** Where the parts of a record sit in its line. */
  lemma ShapeParts(line: string, addr: string, gap1: string, kind: char, gap2: string, symbol: string)
    requires line == addr + gap1 + [kind] + gap2 + symbol
    ensures line == addr + (gap1 + ([kind] + gap2 + symbol))
    ensures line[|addr|..] == gap1 + ([kind] + gap2 + symbol)
    ensures line[|addr| + |gap1|] == kind
    ensures line[|addr| + |gap1| + 1..] == gap2 + symbol
    ensures line[|addr| + |gap1| + 1 + |gap2|..] == symbol
  {
    var a, p := |addr|, |addr| + |gap1|;
    assert line[a..][|gap1|..] == [kind] + gap2 + symbol;
    DropDrop(line, a, |gap1|);
    assert line[p..][1..] == gap2 + symbol;
    DropDrop(line, p, 1);
    assert line[p + 1..][|gap2|..] == symbol;
    DropDrop(line, p + 1, |gap2|);
  }

  /** Dropping the leading blanks of a tail of the line. */
  lemma SkipSpacesOfTail(line: string, r: nat, symbol: string) returns (q: nat)
    requires r <= |line| && line[r..] == symbol
    ensures q == r + SpacesFrom(symbol, 0) <= |line| && line[q..] == SkipSpaces(symbol)
  {
    q := r + SpacesFrom(symbol, 0);
    DropDrop(line, r, SpacesFrom(symbol, 0));
  }

  /** Where the scanner's two whitespace runs end on a line laid out as the pattern describes. */
  lemma RunsOfShape(line: string, addr: string, gap1: string, kind: char, gap2: string, symbol: string) returns (a: nat, p: nat, q: nat)
    requires RecordShape(line, addr, gap1, kind, gap2, symbol)
    ensures a <= p < q <= |line|
    ensures (if HasAddress(line) then 16 else 0) == a
    ensures SpacesFrom(line, a) == p && p != a && IsTypeLetter(line[p])
    ensures SpacesFrom(line, p + 1) == q != p + 1
    ensures line[p] == kind && line[q..] == SkipSpaces(symbol)
  {
    ShapeParts(line, addr, gap1, kind, gap2, symbol);
    a, p := FirstRunOfShape(line, addr, gap1, kind, gap2, symbol);
    q := SecondRunOfShape(line, addr, gap1, kind, gap2, symbol);
  }

  /** The address column and the first whitespace run of a line laid out as the pattern describes. */
  lemma FirstRunOfShape(line: string, addr: string, gap1: string, kind: char, gap2: string, symbol: string) returns (a: nat, p: nat)
    requires RecordShape(line, addr, gap1, kind, gap2, symbol)
    ensures a == |addr| && p == |addr| + |gap1|
    ensures (if HasAddress(line) then 16 else 0) == a
    ensures SpacesFrom(line, a) == p
  {
    a := |addr|;
    var tail := [kind] + gap2 + symbol;
    ShapeParts(line, addr, gap1, kind, gap2, symbol);
    AddressOfShape(line, addr, gap1 + tail);
    TypeLetterIsNotSpace(kind);
    assert SpacesFrom(tail, 0) == 0 by {
      assert tail[0] == kind;
    }
    p := SpaceRun(line, a, gap1, tail);
  }

  /** The second whitespace run of a line laid out as the pattern describes. */
  lemma SecondRunOfShape(line: string, addr: string, gap1: string, kind: char, gap2: string, symbol: string) returns (q: nat)
    requires RecordShape(line, addr, gap1, kind, gap2, symbol)
    ensures |addr| + |gap1| + |gap2| < q <= |line|
    ensures SpacesFrom(line, |addr| + |gap1| + 1) == q
    ensures line[q..] == SkipSpaces(symbol)
  {
    ShapeParts(line, addr, gap1, kind, gap2, symbol);
    var q1 := SpaceRun(line, |addr| + |gap1| + 1, gap2, symbol);
    q := SkipSpacesOfTail(line, |addr| + |gap1| + 1 + |gap2|, symbol);
    assert q1 == q;
  }

  /**
    Every line laid out as the pattern describes is accepted, with the type
    letter and the symbol the greedy match yields (leading blanks dropped).
   */
  lemma ParseRecordComplete(line: string, addr: string, gap1: string, kind: char, gap2: string, symbol: string)
    requires RecordShape(line, addr, gap1, kind, gap2, symbol)
    ensures ParseRecord(line) == Some(Record(kind, SkipSpaces(symbol)))
  {
    var a, p, q := RunsOfShape(line, addr, gap1, kind, gap2, symbol);
    ParseRecordAt(line, a, p, q, kind, SkipSpaces(symbol));
  }

  /** `GLIB_REGEX.sub('', symbol)`: the symbol cut at its first `@`. */
  function Unversioned(s: string): (r: string)
    ensures '@' !in r
    ensures r <= s
    ensures |r| < |s| ==> s[|r|] == '@'
  {
    if s == [] || s[0] == '@' then [] else [s[0]] + Unversioned(s[1..])
  }

  /** Text, read-only, weak and bss symbols count as definitions. */
  predicate IsDefinedKind(c: char)
  {
    c == 'T' || c == 'R' || c == 'W' || c == 'B'
  }

  /** The kinds one of the two lists collects: definitions, or undefined references. */
  predicate Selects(defining: bool, kind: char)
  {
    if defining then IsDefinedKind(kind) else kind == 'U'
  }

  /** What one line adds to the list of definitions (or of references). */
  function SymbolsOf(line: string, defining: bool): seq<string>
  {
    match ParseRecord(line)
    case Some(r) => if Selects(defining, r.kind) then [Unversioned(r.symbol)] else []
    case None => []
  }

  /** The symbols collected from `lines`, in line order. */
  function Collected(lines: seq<string>, defining: bool): seq<string>
  {
    if lines == [] then []
    else Collected(lines[..|lines| - 1], defining) + SymbolsOf(lines[|lines| - 1], defining)
  }

  /** The listing is read line by line: the lists of two pieces of text follow one another. */
  lemma {:induction false} CollectedAppend(a: seq<string>, b: seq<string>, defining: bool)
    ensures Collected(a + b, defining) == Collected(a, defining) + Collected(b, defining)
    decreases |b|
  {
    if b == [] {
      assert a + b == a;
    } else {
      var n := |b| - 1;
      assert (a + b)[..|a + b| - 1] == a + b[..n];
      CollectedAppend(a, b[..n], defining);
    }
  }

  /** The line is a record of a selected kind whose symbol, unversioned, is `x`. */
  predicate Carries(line: string, defining: bool, x: string)
  {
    && ParseRecord(line).Some?
    && Selects(defining, ParseRecord(line).value.kind)
    && Unversioned(ParseRecord(line).value.symbol) == x
  }

  /** A line contributes `x` exactly when it carries it. */
  lemma SymbolsOfCarries(line: string, defining: bool, x: string)
    ensures x in SymbolsOf(line, defining) <==> Carries(line, defining, x)
  {
  }

  /** A symbol is collected exactly when some line is a record of a selected kind carrying it. */
  lemma {:induction false} CollectedMembers(lines: seq<string>, defining: bool, x: string)
    ensures x in Collected(lines, defining) <==> exists i :: 0 <= i < |lines| && Carries(lines[i], defining, x)
  {
    if lines != [] {
      var n := |lines| - 1;
      CollectedMembers(lines[..n], defining, x);
      SymbolsOfCarries(lines[n], defining, x);
      assert forall i :: 0 <= i < n ==> lines[..n][i] == lines[i];
    }
  }

  /** `[us for us in refs if us not in defined]`. */
  function Unresolved(refs: seq<string>, defined: seq<string>): (r: seq<string>)
    ensures forall x :: x in r <==> x in refs && x !in defined
    ensures |r| <= |refs|
  {
    if refs == [] then []
    else if refs[0] in defined then Unresolved(refs[1..], defined)
    else [refs[0]] + Unresolved(refs[1..], defined)
  }

  /** The filter keeps the references in their order. */
  lemma {:induction false} UnresolvedAppend(a: seq<string>, b: seq<string>, defined: seq<string>)
    ensures Unresolved(a + b, defined) == Unresolved(a, defined) + Unresolved(b, defined)
  {
    if a != [] {
      assert (a + b)[1..] == a[1..] + b;
      UnresolvedAppend(a[1..], b, defined);
    } else {
      assert a + b == b;
    }
  }

  /**
    `_parse_nm_output`: every line of the listing that is a record goes, with
    its version cut off, to `defined` (types T, R, W, B) or to the references
    (type U), in line order; references the same listing defines are dropped.
   */
  method ParseNmOutput(output: string) returns (defined: seq<string>, undefined: seq<string>)
    ensures defined == Collected(SplitLines(output), true)
    ensures undefined == Unresolved(Collected(SplitLines(output), false), defined)
    ensures forall s :: s in undefined ==> s !in defined
  {
    var lines := SplitLines(output);
    defined, undefined := [], [];
    var i := 0;
    while i < |lines|
      invariant 0 <= i <= |lines|
      invariant defined == Collected(lines[..i], true)
      invariant undefined == Collected(lines[..i], false)
    {
      var rec := ParseRecord(lines[i]);
      if rec.Some? {
        var symbol := Unversioned(rec.value.symbol);
        if IsDefinedKind(rec.value.kind) {
          defined := defined + [symbol];
        } else if rec.value.kind == 'U' {
          undefined := undefined + [symbol];
        }
      }
      assert lines[..i + 1][..i] == lines[..i];
      i := i + 1;
    }
    assert lines[..i] == lines;
    undefined := Unresolved(undefined, defined);
  }

  /**
    A library that both defines and references a symbol (a T and a U record
    of it) reports it as defined only.
   */
  lemma DefinedAndReferenced(addr: string, gap: string, symbol: string)
    requires IsAddress(addr) && gap != [] && AllSpace(gap)
    requires '@' !in symbol && (symbol == [] || !IsSpace(symbol[0]))
    ensures var lines := [addr + " T " + symbol, gap + "U " + symbol];
            && Collected(lines, true) == [symbol]
            && Unresolved(Collected(lines, false), Collected(lines, true)) == []
  {
    DefinitionLine(addr, symbol);
    ReferenceLine(gap, symbol);
    CollectedPair(addr + " T " + symbol, gap + "U " + symbol, true);
    CollectedPair(addr + " T " + symbol, gap + "U " + symbol, false);
  }

  /** A `T` record with an address yields a definition of its symbol. */
  lemma DefinitionLine(addr: string, symbol: string)
    requires IsAddress(addr)
    requires '@' !in symbol && (symbol == [] || !IsSpace(symbol[0]))
    ensures SymbolsOf(addr + " T " + symbol, true) == [symbol]
    ensures SymbolsOf(addr + " T " + symbol, false) == []
  {
    var line := addr + " T " + symbol;
    assert line == addr + " " + ['T'] + " " + symbol;
    assert AllSpace(" ");
    ParseRecordComplete(line, addr, " ", 'T', " ", symbol);
    UnversionedPlain(symbol);
  }

  /** A `U` record without an address, indented by blanks, yields a reference to its symbol. */
  lemma ReferenceLine(gap: string, symbol: string)
    requires gap != [] && AllSpace(gap)
    requires '@' !in symbol && (symbol == [] || !IsSpace(symbol[0]))
    ensures SymbolsOf(gap + "U " + symbol, true) == []
    ensures SymbolsOf(gap + "U " + symbol, false) == [symbol]
  {
    var line := gap + "U " + symbol;
    assert line == [] + gap + ['U'] + " " + symbol;
    assert AllSpace(" ");
    ParseRecordComplete(line, [], gap, 'U', " ", symbol);
    UnversionedPlain(symbol);
  }

  /** A two-line listing is read one line after the other. */
  lemma CollectedPair(l1: string, l2: string, defining: bool)
    ensures Collected([l1, l2], defining) == SymbolsOf(l1, defining) + SymbolsOf(l2, defining)
  {
    assert [l1, l2][..1] == [l1] && [l1][..0] == [];
    assert Collected([l1], defining) == [] + SymbolsOf(l1, defining) == SymbolsOf(l1, defining);
  }

  /** A symbol without a version suffix is kept whole. */
  lemma {:induction false} UnversionedPlain(s: string)
    requires '@' !in s
    ensures Unversioned(s) == s
  {
    if s != [] {
      assert s[0] != '@';
      assert forall k :: 0 <= k < |s[1..]| ==> s[1..][k] == s[k + 1];
      UnversionedPlain(s[1..]);
      assert [s[0]] + s[1..] == s;
    }
  }

  // ---------------------------------------------------------------------
  // GNU ld scripts
  // ---------------------------------------------------------------------

  /**
    The comment handling of one line: the text that stays and whether a
    comment is open afterwards. A line holding a comment opener keeps what
    precedes it and opens a comment; inside a comment a line is blanked and the
    comment stays open unless the line holds a comment closer.
   */
  function Uncomment(inComment: bool, line: string): (string, bool)
  {
    if Contains(line, "/*") then (line[..Find(line, "/*")], true)
    else if inComment then ("", !Contains(line, "*/"))
    else (line, false)
  }

  /**
    The length of an `AS_NEEDED\s*\([^)]*\)` match at the start of `s`: the
    word, blanks, `(` and everything up to the first `)`.
   */
  function AsNeededAt(s: string): (n: Option<nat>)
    ensures n.Some? ==> 9 < n.value <= |s| && "AS_NEEDED" <= s && s[n.value - 1] == ')'
  {
    if !("AS_NEEDED" <= s) then None
    else
      var j := SpacesFrom(s, 9);
      if j == |s| || s[j] != '(' then None
      else
        var k := Find(s[j + 1..], ")");
        if k < 0 then None
        else
          assert s[j + 1..][k] == ')';
          Some(j + k + 2)
  }

  /** `re.sub(r'AS_NEEDED\s*\([^)]*\)', '', s)`: leftmost matches removed, scanning on after each. */
  function WithoutAsNeeded(s: string): (r: string)
    ensures |r| <= |s|
    decreases |s|
  {
    if s == [] then []
    else match AsNeededAt(s)
      case Some(n) => WithoutAsNeeded(s[n..])
      case None => [s[0]] + WithoutAsNeeded(s[1..])
  }

  /** Text with no `AS_NEEDED` in it is left alone. */
  lemma {:induction false} NoAsNeededKept(s: string)
    requires forall i :: 0 <= i <= |s| ==> !OccursAt(s, "AS_NEEDED", i)
    ensures WithoutAsNeeded(s) == s
    decreases |s|
  {
    if s != [] {
      assert s[0..] == s;
      assert !("AS_NEEDED" <= s) by { assert !OccursAt(s, "AS_NEEDED", 0); }
      forall i | 0 <= i <= |s[1..]|
        ensures !OccursAt(s[1..], "AS_NEEDED", i)
      {
        assert s[1..][i..] == s[i + 1..];
        assert !OccursAt(s, "AS_NEEDED", i + 1);
      }
      NoAsNeededKept(s[1..]);
    }
  }

  /** `g` is one `AS_NEEDED` group: the word, the blanks `b`, then `(`, text `x` without `)`, and `)`. */
  predicate AsNeededGroup(g: string, b: string, x: string)
  {
    g == "AS_NEEDED" + b + "(" + x + ")" && AllSpace(b) && ')' !in x
  }

  /** `AsNeededAt` when the word opens `s`, `(` follows the blanks, and `x` runs from there to the first `)`. */
  lemma AsNeededAtFound(s: string, j: nat, x: string)
    requires "AS_NEEDED" <= s && SpacesFrom(s, 9) == j && j + 1 + |x| < |s| && s[j] == '('
    requires s[j + 1..j + 1 + |x|] == x && s[j + 1 + |x|] == ')' && ')' !in x
    ensures AsNeededAt(s) == Some(j + |x| + 2)
  {
    FindFirstClosing(s, j + 1, j + 1 + |x|);
    AsNeededAtIs(s, j, |x|);
  }

  lemma AsNeededAtIs(s: string, j: nat, k: nat)
    requires "AS_NEEDED" <= s && SpacesFrom(s, 9) == j < |s| && s[j] == '(' && Find(s[j + 1..], ")") == k
    ensures AsNeededAt(s) == Some(j + k + 2)
  {
  }

  /** A run of blanks `b` at index `i` that a non-blank (or the end) follows is exactly what `SpacesFrom` skips. */
  lemma SpacesRun(s: string, i: nat, b: string)
    requires i + |b| <= |s| && s[i..i + |b|] == b && AllSpace(b)
    requires i + |b| == |s| || !IsSpace(s[i + |b|])
    ensures SpacesFrom(s, i) == i + |b|
  {
    forall k | i <= k < i + |b|
      ensures IsSpace(s[k])
    {
      assert s[k] == s[i..i + |b|][k - i];
    }
    SpacesFromAt(s, i, i + |b|);
  }

  /** A group opening the text is matched whole: the match ends at the group's own `)`, the first one. */
  lemma AsNeededAtGroup(g: string, b: string, x: string, q: string)
    requires AsNeededGroup(g, b, x)
    ensures AsNeededAt(g + q) == Some(|g|)
  {
    var s := g + q;
    var j := 9 + |b|;
    assert s == "AS_NEEDED" + b + ['('] + x + [')'] + q;
    GroupParts("AS_NEEDED", b, '(', x, ')', q);
    SpacesRun(s, 9, b);
    AsNeededAtFound(s, j, x);
  }

  /** Where each part of `w + b + [o] + x + [c] + q` sits. */
  lemma GroupParts<T>(w: seq<T>, b: seq<T>, o: T, x: seq<T>, c: T, q: seq<T>)
    ensures var s := w + b + [o] + x + [c] + q;
            var j := |w| + |b|;
            && |s| == j + |x| + 2 + |q|
            && w <= s && s[|w|..j] == b && s[j] == o && s[j + 1..j + 1 + |x|] == x && s[j + 1 + |x|] == c
  {
  }

  /** Conversely, every match is one group: blanks, `(`, text without `)`, and the `)` that ends it. */
  lemma AsNeededAtSound(s: string)
    requires AsNeededAt(s).Some?
    ensures var n := AsNeededAt(s).value;
            var j := SpacesFrom(s, 9);
            9 <= j < n - 1 && AsNeededGroup(s[..n], s[9..j], s[j + 1..n - 1])
  {
    var n := AsNeededAt(s).value;
    var j := SpacesFrom(s, 9);
    var k := Find(s[j + 1..], ")");
    assert n == j + k + 2;
    SpacesFromCovers(s, 9);
    assert AllSpace(s[9..j]) by {
      forall m | 0 <= m < j - 9 ensures IsSpace(s[9..j][m]) { assert s[9..j][m] == s[9 + m]; }
    }
    FindClosing(s[j + 1..], k);
    assert s[j + 1..][..k] == s[j + 1..n - 1];
    SliceParts(s, j, n);
    assert s[..9] == "AS_NEEDED" && [s[j]] == "(" && [s[n - 1]] == ")";
  }

  /** Up to the first `)` there is none. */
  lemma FindClosing(t: string, k: int)
    requires k == Find(t, ")") && k >= 0
    ensures ')' !in t[..k]
  {
    forall m | 0 <= m < k ensures t[..k][m] != ')' {
      assert !OccursAt(t, ")", m);
      assert t[m..][0] == t[m];
    }
  }

  /** The five parts of an `AS_NEEDED` match, by position. */
  lemma SliceParts(s: string, j: nat, n: nat)
    requires 9 <= j < n - 1 && n <= |s|
    ensures s[..n] == s[..9] + s[9..j] + [s[j]] + s[j + 1..n - 1] + [s[n - 1]]
  {
  }

  /** A match at the start is deleted, and the substitution goes on after it. */
  lemma WithoutAsNeededMatch(s: string, n: nat)
    requires s != [] && AsNeededAt(s) == Some(n)
    ensures WithoutAsNeeded(s) == WithoutAsNeeded(s[n..])
  {
  }

  /** With no match at the start, the first character stays. */
  lemma WithoutAsNeededSkip(s: string)
    requires s != [] && !OccursAt(s, "AS_NEEDED", 0)
    ensures WithoutAsNeeded(s) == [s[0]] + WithoutAsNeeded(s[1..])
  {
    assert s[0..] == s;
  }

  /** A group opening the text is deleted. */
  lemma WithoutAsNeededOpening(g: string, b: string, x: string, q: string)
    requires AsNeededGroup(g, b, x)
    ensures WithoutAsNeeded(g + q) == WithoutAsNeeded(q)
  {
    AsNeededAtGroup(g, b, x, q);
    assert (g + q)[|g|..] == q;
    WithoutAsNeededMatch(g + q, |g|);
  }

  /** Characters at which no match starts are kept, and the substitution goes on after them. */
  lemma {:induction false} WithoutAsNeededKeeps(p: string, r: string)
    requires forall i :: 0 <= i < |p| ==> !OccursAt(p + r, "AS_NEEDED", i)
    ensures WithoutAsNeeded(p + r) == p + WithoutAsNeeded(r)
    decreases |p|
  {
    if p != [] {
      WithoutAsNeededKeepsFirst(p, r);
      forall i | 0 <= i < |p[1..]|
        ensures !OccursAt(p[1..] + r, "AS_NEEDED", i)
      {
        KeepsTail(p, r, i);
      }
      WithoutAsNeededKeeps(p[1..], r);
      KeptInFront(WithoutAsNeeded(p + r), p, WithoutAsNeeded(p[1..] + r), WithoutAsNeeded(r));
    } else {
      assert p + r == r;
    }
  }

  /** Keeping the characters of `p` one at a time keeps `p`. */
  lemma KeptInFront(all: string, p: string, rest: string, w: string)
    requires p != [] && all == [p[0]] + rest && rest == p[1..] + w
    ensures all == p + w
  {
    assert [p[0]] + p[1..] == p;
  }

  /** The first character of `p` is kept when no match starts there. */
  lemma WithoutAsNeededKeepsFirst(p: string, r: string)
    requires p != [] && !OccursAt(p + r, "AS_NEEDED", 0)
    ensures WithoutAsNeeded(p + r) == [p[0]] + WithoutAsNeeded(p[1..] + r)
  {
    var s := p + r;
    WithoutAsNeededSkip(s);
    assert s[0] == p[0] && s[1..] == p[1..] + r;
  }

  /** Where no match starts in `p + r`, none starts one place back in `p[1..] + r`. */
  lemma KeepsTail(p: string, r: string, i: nat)
    requires p != [] && !OccursAt(p + r, "AS_NEEDED", i + 1)
    ensures !OccursAt(p[1..] + r, "AS_NEEDED", i)
  {
    var s := p + r;
    assert s[1..] == p[1..] + r;
    OccursAtTail(s, "AS_NEEDED", i);
  }

  /** The substitution deletes a group and goes on after it, when no match starts in front of it. */
  lemma WithoutAsNeededGroup(p: string, g: string, b: string, x: string, q: string)
    requires AsNeededGroup(g, b, x)
    requires forall i :: 0 <= i < |p| ==> !OccursAt(p + g + q, "AS_NEEDED", i)
    ensures WithoutAsNeeded(p + g + q) == p + WithoutAsNeeded(q)
  {
    assert p + g + q == p + (g + q);
    WithoutAsNeededKeeps(p, g + q);
    WithoutAsNeededOpening(g, b, x, q);
  }

  /** No character of `AS_NEEDED` but the first is an `A`. */
  lemma AsNeededOneA(m: int)
    requires 0 < m < 9
    ensures "AS_NEEDED"[m] != 'A'
  {
  }

  /** A match cannot start in `p` and run into a group: a group starts with the only `A` of the word. */
  lemma NoMatchIntoGroup(p: string, g: string, b: string, x: string, q: string)
    requires AsNeededGroup(g, b, x)
    requires forall i :: 0 <= i <= |p| ==> !OccursAt(p, "AS_NEEDED", i)
    ensures forall i :: 0 <= i < |p| ==> !OccursAt(p + g + q, "AS_NEEDED", i)
  {
    var s := p + g + q;
    forall i | 0 <= i < |p|
      ensures !OccursAt(s, "AS_NEEDED", i)
    {
      if i + 9 <= |p| {
        assert !OccursAt(p, "AS_NEEDED", i);
        assert p[i..][..9] == s[i..][..9];
      } else if i + 9 <= |s| {
        var m := |p| - i;
        assert s[i..][m] == s[|p|] == g[0] == 'A';
        AsNeededOneA(m);
        assert s[i..][..9][m] != "AS_NEEDED"[m];
      }
    }
  }

  /** A match cannot run into a `)`: the word holds none. */
  lemma NoMatchIntoClosing(post: string)
    requires forall i :: 0 <= i <= |post| ==> !OccursAt(post, "AS_NEEDED", i)
    ensures forall i :: 0 <= i <= |post + ")"| ==> !OccursAt(post + ")", "AS_NEEDED", i)
  {
    var s := post + ")";
    forall i | 0 <= i <= |s|
      ensures !OccursAt(s, "AS_NEEDED", i)
    {
      if i + 9 <= |post| {
        assert !OccursAt(post, "AS_NEEDED", i);
        assert post[i..][..9] == s[i..][..9];
      } else if i + 9 <= |s| {
        var m := |post| - i;
        assert s[i..][..9][m] == s[|post|] == ')';
      }
    }
  }

  /** The command word, blanks and `(` of a `GROUP` line hold no `A`, so no match starts among them. */
  lemma NoMatchInGroupHead(b0: string, pre: string)
    requires AllSpace(b0)
    requires forall i :: 0 <= i <= |pre| ==> !OccursAt(pre, "AS_NEEDED", i)
    ensures var p := "GROUP" + b0 + "(" + pre;
            forall i :: 0 <= i <= |p| ==> !OccursAt(p, "AS_NEEDED", i)
  {
    var h := "GROUP" + b0 + "(";
    var p := h + pre;
    forall i | 0 <= i <= |p|
      ensures !OccursAt(p, "AS_NEEDED", i)
    {
      if i < |h| {
        assert h[i] != 'A' by {
          if 5 <= i < 5 + |b0| {
            assert h[i] == b0[i - 5];
          }
        }
        assert p[i..][0] == h[i];
      } else {
        assert p[i..] == pre[i - |h|..];
        assert !OccursAt(pre, "AS_NEEDED", i - |h|);
      }
    }
  }

  /** `GROUP b0 ( ops )` with blanks `b0` and no `)` in `ops` has the operands `ops`. */
  lemma GroupOperands(b0: string, ops: string)
    requires AllSpace(b0) && ')' !in ops
    ensures CommandOperands("GROUP" + b0 + "(" + ops + ")") == Some(ops)
  {
    var line := "GROUP" + b0 + "(" + ops + ")";
    var j := 5 + |b0|;
    var k := |line| - 1;
    assert line[..5] == "GROUP";
    assert forall m :: 5 <= m < j ==> line[m] == b0[m - 5];
    assert line[j] == '(';
    SpacesFromAt(line, 5, j);
    assert line[j + 1..k] == ops;
    CommandOperandsAt(line, j, k);
  }

  /** A line's libraries from what the substitution leaves of it and the operands found there. */
  lemma LineLibrariesFrom(text: string, kept: string, operands: string)
    requires WithoutAsNeeded(text) == kept && CommandOperands(kept) == Some(operands)
    ensures LineLibraries(text) == Split(operands)
  {
  }

  /**
    The `AS_NEEDED` groups are left out of a script: a `GROUP` line whose
    operands hold one group between the texts `pre` and `post` names exactly
    the words of `pre` and `post`, and nothing from inside the group. Without
    the substitution the operands would stop at the group's own `)`.
   */
  lemma AsNeededLeftOut(b0: string, pre: string, g: string, b: string, x: string, post: string)
    requires AllSpace(b0) && AsNeededGroup(g, b, x)
    requires ')' !in pre && ')' !in post
    requires forall i :: 0 <= i <= |pre| ==> !OccursAt(pre, "AS_NEEDED", i)
    requires forall i :: 0 <= i <= |post| ==> !OccursAt(post, "AS_NEEDED", i)
    ensures LineLibraries("GROUP" + b0 + "(" + pre + g + post + ")") == Split(pre + post)
  {
    var line := "GROUP" + b0 + "(" + pre + g + post + ")";
    var p := "GROUP" + b0 + "(" + pre;
    var q := post + ")";
    var kept := "GROUP" + b0 + "(" + (pre + post) + ")";
    assert line == p + g + q;
    assert p + q == kept;
    NoMatchInGroupHead(b0, pre);
    NoMatchIntoGroup(p, g, b, x, q);
    WithoutAsNeededGroup(p, g, b, x, q);
    NoMatchIntoClosing(post);
    NoAsNeededKept(q);
    assert ')' !in pre + post;
    GroupOperands(b0, pre + post);
    LineLibrariesFrom(line, kept, pre + post);
  }


  /** The first `)` from index `i` of `s` is at `k` when `s[k]` is one and none comes between. */
  lemma FindFirstClosing(s: string, i: nat, k: nat)
    requires i <= k < |s| && s[k] == ')' && ')' !in s[i..k]
    ensures Find(s[i..], ")") == k - i
  {
    var u := s[i..];
    assert u[k - i..][..1] == ")";
    assert OccursAt(u, ")", k - i);
    forall m | 0 <= m < k - i
      ensures !OccursAt(u, ")", m)
    {
      assert u[m..][0] == u[m] == s[i..k][m];
    }
  }

  /**
    `re.match(r'(GROUP|INPUT)\s*\(([^)]*)\)', line)`: the text between the
    parentheses of a `GROUP` or `INPUT` command opening the line.
   */
  function CommandOperands(line: string): (r: Option<string>)
    ensures r.Some? ==> ')' !in r.value
  {
    if "GROUP" <= line || "INPUT" <= line then OperandsFrom(line, SpacesFrom(line, 5)) else None
  }

  /** The operands when the blanks after the command word end at `j`. */
  function OperandsFrom(line: string, j: nat): (r: Option<string>)
    requires j <= |line|
    ensures r.Some? ==> ')' !in r.value
  {
    if j < |line| && line[j] == '(' then UpToClosing(line[j + 1..]) else None
  }

  /** The text before the first `)` of `u`, if there is one. */
  function UpToClosing(u: string): (r: Option<string>)
    ensures r.Some? ==> ')' !in r.value
  {
    var k := Find(u, ")");
    if k < 0 then None
    else
      assert forall m :: 0 <= m < k ==> u[..k][m] != ')' by {
        forall m | 0 <= m < k ensures u[..k][m] != ')' {
          assert !OccursAt(u, ")", m);
          assert u[m..][0] == u[m];
        }
      }
      Some(u[..k])
  }

  /** A `GROUP` or `INPUT` command opening the line yields the text up to the first `)`. */
  lemma CommandOperandsAt(line: string, j: nat, k: nat)
    requires "GROUP" <= line || "INPUT" <= line
    requires 5 <= j < k < |line| && SpacesFrom(line, 5) == j && line[j] == '(' && line[k] == ')'
    requires ')' !in line[j + 1..k]
    ensures CommandOperands(line) == Some(line[j + 1..k])
  {
    OperandsFromAt(line, j, k);
  }

  lemma OperandsFromAt(line: string, j: nat, k: nat)
    requires j < k < |line| && line[j] == '(' && line[k] == ')'
    requires ')' !in line[j + 1..k]
    ensures OperandsFrom(line, j) == Some(line[j + 1..k])
  {
    UpToClosingAt(line, j + 1, k);
  }

  lemma UpToClosingAt(s: string, i: nat, k: nat)
    requires i <= k < |s| && s[k] == ')' && ')' !in s[i..k]
    ensures UpToClosing(s[i..]) == Some(s[i..k])
  {
    FindFirstClosing(s, i, k);
    SliceOfSlice(s, i, k);
  }

  lemma SliceOfSlice(s: string, i: nat, k: nat)
    requires i <= k <= |s|
    ensures s[i..][..k - i] == s[i..k]
  {
  }

  /** The libraries one line (comments already handled) contributes. */
  function LineLibraries(text: string): seq<string>
  {
    match CommandOperands(WithoutAsNeeded(text))
    case Some(operands) => Split(operands)
    case None => []
  }

  /**
    The libraries `lines[i..]` add to `libs` when read with a comment open
    (`inComment`) or not: each line's comments are handled, then the
    operands of its command are split into words.
   */
  function ScanFrom(lines: seq<string>, i: nat, libs: seq<string>, inComment: bool): seq<string>
    requires i <= |lines|
    decreases |lines| - i
  {
    if i == |lines| then libs
    else
      var after := Uncomment(inComment, lines[i]);
      ScanFrom(lines, i + 1, libs + LineLibraries(after.0), after.1)
  }

  /** The libraries a script names, read from its first line with no comment open. */
  function ScriptLibraries(lines: seq<string>): seq<string>
  {
    ScanFrom(lines, 0, [], false)
  }

  /**
    `_parse_link_script` on the lines of the script: the operands of every
    `GROUP(...)` or `INPUT(...)` command outside comments, with the
    `AS_NEEDED(...)` groups left out, in order.
   */
  method ParseLinkScript(lines: seq<string>) returns (libs: seq<string>)
    ensures libs == ScriptLibraries(lines)
  {
    libs := [];
    var inComment := false;
    var i := 0;
    while i < |lines|
      invariant 0 <= i <= |lines|
      invariant ScanFrom(lines, i, libs, inComment) == ScriptLibraries(lines)
    {
      ghost var after := Uncomment(inComment, lines[i]);
      ghost var before := libs;
      var line := lines[i];
      if Contains(line, "/*") {
        line := line[..Find(line, "/*")];
        inComment := true;
      } else if inComment {
        inComment := !Contains(line, "*/");
        line := "";
      }
      assert line == after.0 && inComment == after.1;
      line := WithoutAsNeeded(line);
      var operands := CommandOperands(line);
      if operands.Some? {
        libs := libs + Split(operands.value);
      }
      assert libs == before + LineLibraries(after.0);
      i := i + 1;
      assert ScanFrom(lines, i, libs, inComment) == ScriptLibraries(lines);
    }
  }

  /** What was read before stays in front, in order: the scan only appends. */
  lemma {:induction false} ScanFromExtends(lines: seq<string>, i: nat, libs: seq<string>, inComment: bool)
    requires i <= |lines|
    ensures ScanFrom(lines, i, libs, inComment) == libs + ScanFrom(lines, i, [], inComment)
    decreases |lines| - i
  {
    if i < |lines| {
      var after := Uncomment(inComment, lines[i]);
      var found := LineLibraries(after.0);
      ScanFromStep(lines, i, libs, inComment);
      ScanFromStep(lines, i, [], inComment);
      AppendNil(found);
      ScanFromExtends(lines, i + 1, libs + found, after.1);
      ScanFromExtends(lines, i + 1, found, after.1);
      AppendAssoc(libs, found, ScanFrom(lines, i + 1, [], after.1));
    }
  }

  /** Every library a script names is a non-empty word without blanks. */
  lemma {:induction false} ScanFromWords(lines: seq<string>, i: nat, libs: seq<string>, inComment: bool)
    requires i <= |lines|
    requires forall k :: 0 <= k < |libs| ==> libs[k] != [] && NoSpace(libs[k])
    ensures forall k :: 0 <= k < |ScanFrom(lines, i, libs, inComment)| ==>
              ScanFrom(lines, i, libs, inComment)[k] != [] && NoSpace(ScanFrom(lines, i, libs, inComment)[k])
    decreases |lines| - i
  {
    if i < |lines| {
      var after := Uncomment(inComment, lines[i]);
      var found := LineLibraries(after.0);
      assert forall k :: 0 <= k < |found| ==> found[k] != [] && NoSpace(found[k]);
      ScanFromWords(lines, i + 1, libs + found, after.1);
    }
  }

  /** Once a comment is open, lines without an opener or a closer add nothing to the end of the script. */
  lemma {:induction false} CommentBodySkipped(lines: seq<string>, i: nat, libs: seq<string>)
    requires i <= |lines|
    requires forall k :: i <= k < |lines| ==> CommentBody(lines[k])
    ensures ScanFrom(lines, i, libs, true) == libs
    decreases |lines| - i
  {
    if i < |lines| {
      CommentLineSkipped(lines, i, libs);
      CommentBodySkipped(lines, i + 1, libs);
    }
  }

  /** A line with neither a comment opener nor a closer. */
  predicate CommentBody(line: string)
  {
    !Contains(line, "/*") && !Contains(line, "*/")
  }

  lemma CommentLineSkipped(lines: seq<string>, i: nat, libs: seq<string>)
    requires i < |lines| && CommentBody(lines[i])
    ensures ScanFrom(lines, i, libs, true) == ScanFrom(lines, i + 1, libs, true)
  {
    ScanFromStep(lines, i, libs, true);
    UncommentBody(lines[i]);
    NothingOnBlank();
    AppendNil(libs);
  }

  /** One step of the scan. */
  lemma ScanFromStep(lines: seq<string>, i: nat, libs: seq<string>, inComment: bool)
    requires i < |lines|
    ensures var after := Uncomment(inComment, lines[i]);
            ScanFrom(lines, i, libs, inComment) == ScanFrom(lines, i + 1, libs + LineLibraries(after.0), after.1)
  {
  }

  /** Outside a comment, a line without an opener is kept whole. */
  lemma UncommentPlain(line: string)
    requires !Contains(line, "/*")
    ensures Uncomment(false, line) == (line, false)
  {
  }

  /** Inside a comment, a line without an opener or a closer is blanked. */
  lemma UncommentBody(line: string)
    requires !Contains(line, "/*") && !Contains(line, "*/")
    ensures Uncomment(true, line) == ("", true)
  {
  }

  /** A blank line names nothing. */
  lemma NothingOnBlank()
    ensures LineLibraries("") == []
  {
    assert WithoutAsNeeded("") == "";
  }

  lemma AppendNil(s: seq<string>)
    ensures s + [] == s && [] + s == s
  {
  }

  lemma AppendAssoc(a: seq<string>, b: seq<string>, c: seq<string>)
    ensures a + b + c == a + (b + c)
  {
  }

  /** Before any comment opener, each line contributes the operands of its own command. */
  function EachLineLibraries(lines: seq<string>, i: nat): seq<string>
    requires i <= |lines|
    decreases |lines| - i
  {
    if i == |lines| then [] else LineLibraries(lines[i]) + EachLineLibraries(lines, i + 1)
  }

  /** A script without comments is read line by line, each line on its own. */
  lemma {:induction false} UncommentedScript(lines: seq<string>, i: nat, libs: seq<string>)
    requires i <= |lines|
    requires forall k :: i <= k < |lines| ==> !Contains(lines[k], "/*")
    ensures ScanFrom(lines, i, libs, false) == libs + EachLineLibraries(lines, i)
    decreases |lines| - i
  {
    if i < |lines| {
      ScanFromStep(lines, i, libs, false);
      UncommentPlain(lines[i]);
      UncommentedScript(lines, i + 1, libs + LineLibraries(lines[i]));
      AppendAssoc(libs, LineLibraries(lines[i]), EachLineLibraries(lines, i + 1));
    } else {
      AppendNil(libs);
    }
  }

  /** `split()` of a word already under way and a blank-free rest is that one word. */
  lemma {:induction false} SplitWordsOfWord(s: string, word: string)
    requires NoSpace(word) && NoSpace(s) && word + s != []
    ensures SplitWords(s, word) == [word + s]
    decreases |s|
  {
    if s == [] {
      assert word + s == word;
    } else {
      var w := word + [s[0]];
      assert forall i :: 0 <= i < |w| ==> w[i] == if i < |word| then word[i] else s[0];
      assert w + s[1..] == word + s;
      SplitWordsOfWord(s[1..], w);
    }
  }

  /** `split()` of a single word is that word. */
  lemma SplitOfWord(w: string)
    requires w != [] && NoSpace(w)
    ensures Split(w) == [w]
  {
    SplitWordsOfWord(w, []);
    assert [] + w == w;
  }

  /** A text without the first character of a pattern does not contain it. */
  lemma {:induction false} ContainsNeedsHead(s: string, pat: string)
    requires pat != [] && pat[0] !in s
    ensures !Contains(s, pat)
  {
    if s != [] {
      assert s[1..] == s[1..] && pat[0] !in s[1..];
      ContainsNeedsHead(s[1..], pat);
    }
  }

  /** A text without an `A` holds no `AS_NEEDED` group. */
  lemma {:induction false} NoAsNeededWithoutA(s: string)
    requires 'A' !in s
    ensures WithoutAsNeeded(s) == s
    decreases |s|
  {
    if s != [] {
      assert !("AS_NEEDED" <= s) by {
        assert s[0] != "AS_NEEDED"[0];
      }
      assert 'A' !in s[1..];
      NoAsNeededWithoutA(s[1..]);
    }
  }

  /**
    As written, a line holding a comment opener leaves a comment open even
    when the same line closes it again, so a script whose later lines hold no
    comment marker loses all of them.
   */
  lemma ClosedCommentStaysOpen(lines: seq<string>, i: nat, libs: seq<string>, inComment: bool)
    requires i < |lines| && Contains(lines[i], "/*")
    requires forall k :: i < k < |lines| ==> CommentBody(lines[k])
    ensures ScanFrom(lines, i, libs, inComment) == libs + LineLibraries(lines[i][..Find(lines[i], "/*")])
  {
    var kept := libs + LineLibraries(lines[i][..Find(lines[i], "/*")]);
    assert ScanFrom(lines, i, libs, inComment) == ScanFrom(lines, i + 1, kept, true);
    CommentBodySkipped(lines, i + 1, kept);
  }

  /** One comment on the first line hides the `INPUT` command on the second. */
  lemma ClosedCommentHidesInput()
    ensures ScriptLibraries(["/**/", "INPUT(a)"]) == []
  {
    OneLineComment();
    InputLineIsBody();
    CommentThenBody("/**/", "INPUT(a)");
    NothingOnBlank();
  }

  /** As written: after a line with a comment opener, a plain second line is never read. */
  lemma CommentThenBody(l0: string, l1: string)
    requires Contains(l0, "/*") && CommentBody(l1)
    ensures ScriptLibraries([l0, l1]) == LineLibraries(l0[..Find(l0, "/*")])
  {
    ClosedCommentStaysOpen([l0, l1], 0, [], false);
    AppendNil(LineLibraries(l0[..Find(l0, "/*")]));
  }

  /** The line made of an empty comment opens one at its start and closes it right after. */
  lemma OneLineComment()
    ensures Contains("/**/", "/*") && Find("/**/", "/*") == 0 && "/**/"[..0] == ""
    ensures "/**/"[2..] == "*/" && Contains("*/", "*/")
  {
    assert "/*" <= "/**/";
    assert "*/" <= "*/";
  }

  /** `INPUT(a)` neither opens nor closes a comment. */
  lemma InputLineIsBody()
    ensures CommentBody("INPUT(a)")
  {
    ContainsNeedsHead("INPUT(a)", "/*");
    ContainsNeedsHead("INPUT(a)", "*/");
  }

  /**
    The comment handling evidently intended: a comment opened on a line stays
    open only when the rest of that line does not close it.
   */
  function FixedUncomment(inComment: bool, line: string): (r: (string, bool))
    ensures Contains(line, "/*") ==> r.0 == line[..Find(line, "/*")]
    ensures !Contains(line, "/*") ==> r == Uncomment(inComment, line)
  {
    if Contains(line, "/*") then
      var at := Find(line, "/*");
      (line[..at], !Contains(line[at + 2..], "*/"))
    else Uncomment(inComment, line)
  }

  /** `ScanFrom` with the intended comment handling. */
  function FixedScanFrom(lines: seq<string>, i: nat, libs: seq<string>, inComment: bool): seq<string>
    requires i <= |lines|
    decreases |lines| - i
  {
    if i == |lines| then libs
    else
      var after := FixedUncomment(inComment, lines[i]);
      FixedScanFrom(lines, i + 1, libs + LineLibraries(after.0), after.1)
  }

  function FixedScriptLibraries(lines: seq<string>): seq<string>
  {
    FixedScanFrom(lines, 0, [], false)
  }

  /** With the intended handling, the line after a comment closed on its own line is read as usual. */
  lemma ClosedCommentEnds(lines: seq<string>, i: nat, libs: seq<string>, inComment: bool)
    requires i + 1 < |lines| && Contains(lines[i], "/*")
    requires Contains(lines[i][Find(lines[i], "/*") + 2..], "*/")
    requires !Contains(lines[i + 1], "/*")
    ensures FixedScanFrom(lines, i, libs, inComment) ==
              FixedScanFrom(lines, i + 2, libs + LineLibraries(lines[i][..Find(lines[i], "/*")]) + LineLibraries(lines[i + 1]), false)
  {
    var kept := libs + LineLibraries(lines[i][..Find(lines[i], "/*")]);
    assert FixedScanFrom(lines, i, libs, inComment) == FixedScanFrom(lines, i + 1, kept, false);
  }

  lemma InputLineKept()
    ensures WithoutAsNeeded("INPUT(a)") == "INPUT(a)"
  {
    NoAsNeededWithoutA("INPUT(a)");
  }

  lemma InputOperands()
    ensures CommandOperands("INPUT(a)") == Some("a")
  {
    var line := "INPUT(a)";
    assert line[6..7] == "a";
    assert ')' !in "a";
    assert SpacesFrom(line, 5) == 5;
    CommandOperandsAt(line, 5, 7);
  }

  /** The line `INPUT(a)` names the library `a`. */
  lemma InputLineRead()
    ensures LineLibraries("INPUT(a)") == ["a"]
  {
    InputLineKept();
    InputOperands();
    SplitOfWord("a");
  }

  /** The intended handling reads the `INPUT` command after the one-line comment. */
  lemma ClosedCommentShowsInput()
    ensures FixedScriptLibraries(["/**/", "INPUT(a)"]) == ["a"]
  {
    OneLineComment();
    InputLineIsBody();
    ClosedThenLine("/**/", "INPUT(a)");
    NothingOnBlank();
    InputLineRead();
    AppendNil(["a"]);
  }

  /** Intended: after a comment closed on its own line, the second line is read. */
  lemma ClosedThenLine(l0: string, l1: string)
    requires Contains(l0, "/*") && Contains(l0[Find(l0, "/*") + 2..], "*/") && !Contains(l1, "/*")
    ensures FixedScriptLibraries([l0, l1]) == LineLibraries(l0[..Find(l0, "/*")]) + LineLibraries(l1)
  {
    var lines := [l0, l1];
    assert lines[0] == l0 && lines[1] == l1 && |lines| == 2;
    ClosedCommentEnds(lines, 0, [], false);
    var found := [] + LineLibraries(l0[..Find(l0, "/*")]) + LineLibraries(l1);
    FixedScanEnd(lines, found, false);
    AppendNil(LineLibraries(l0[..Find(l0, "/*")]));
  }

  lemma FixedScanEnd(lines: seq<string>, libs: seq<string>, inComment: bool)
    ensures FixedScanFrom(lines, |lines|, libs, inComment) == libs
  {
  }

  // ---------------------------------------------------------------------
  // Folding a scanned library into the catalog
  // ---------------------------------------------------------------------

  /** The four catalog tables `_update_cache` touches. */
  datatype Tables = Tables(libraries: map<string, Library>, defined: map<string, string>,
                           undefined: map<string, set<string>>, packages: map<string, set<string>>)

  function Snapshot(cache: Cache): Tables
    reads cache
  {
    Tables(cache.libraries, cache.definedSymbols, cache.undefinedSymbols, cache.packages)
  }

  function Members(s: seq<string>): set<string>
  {
    set x | x in s
  }

  /** The files waiting, in `undefined`, for one of `symbols`. */
  function Waiting(undefined: map<string, set<string>>, symbols: seq<string>): (w: set<string>)
    ensures forall f :: f in w <==> exists i :: 0 <= i < |symbols| && f in Cache.PendingOn(undefined, symbols[i])
  {
    if symbols == [] then {}
    else
      var n := |symbols| - 1;
      assert forall i :: 0 <= i < n ==> symbols[..n][i] == symbols[i];
      Waiting(undefined, symbols[..n]) + Cache.PendingOn(undefined, symbols[n])
  }

  /** The table with `tgt` added to the needs of every library filed under one of `keys`. */
  function AddNeeds(libraries: map<string, Library>, keys: set<string>, tgt: string): (r: map<string, Library>)
    ensures r.Keys == libraries.Keys
    ensures forall k :: k in r ==> r[k] == if k in keys then libraries[k].(dependencies := libraries[k].dependencies + {tgt}) else libraries[k]
  {
    map k | k in libraries :: if k in keys then libraries[k].(dependencies := libraries[k].dependencies + {tgt}) else libraries[k]
  }

  /** A definer `if definer:` accepts: a recorded, non-empty file name. */
  predicate Known(defined: map<string, string>, symbol: string)
  {
    symbol in defined && defined[symbol] != ""
  }

  /** The known definers of the symbols in `symbols`. */
  function Definers(defined: map<string, string>, symbols: seq<string>): (d: set<string>)
    ensures forall f :: f in d <==> exists u :: u in symbols && Known(defined, u) && defined[u] == f
  {
    set u | u in symbols && Known(defined, u) :: defined[u]
  }

  /** The pending table once `f` waits for every symbol of `symbols` without a known definer. */
  function Pend(undefined: map<string, set<string>>, symbols: seq<string>, defined: map<string, string>, f: string): map<string, set<string>>
  {
    undefined + map u | u in symbols && !Known(defined, u) :: Cache.PendingOn(undefined, u) + {f}
  }

  /** The package table after `add_library` tags key `key` with `package`. */
  function Tagged(packages: map<string, set<string>>, package: Option<string>, key: string): map<string, set<string>>
  {
    if package.Some? && package.value != "" then packages[package.value := Cache.PackageMembers(packages, package.value) + {key}]
    else packages
  }

  /**
    What `_update_cache` makes of the tables: `libname` is filed afresh; it
    becomes the definer of every symbol in `defined`; every file that waited
    for one of them (other than `libname`) needs `libname`; `libname` needs
    the known definer of each symbol in `undefined` and waits for the others.
    `None` where Python raises `KeyError`: a waiting file is not catalogued.
   */
  function Update(t: Tables, libname: string, defined: seq<string>, undefined: seq<string>, package: Option<string>, system: bool): Option<Tables>
  {
    var key := StripLibraryName(libname);
    var registered := t.libraries[key := NewLibrary(libname, system)];
    var dependents := Waiting(t.undefined, defined) - {libname};
    if !(Keys(dependents) <= registered.Keys) then None
    else
      var linked := AddNeeds(registered, Keys(dependents), libname);
      var definedAfter := t.defined + Filing(Members(defined), libname);
      var definers := Definers(definedAfter, undefined) - {libname};
      Some(Tables(
        WithNeeds(linked, key, definers),
        definedAfter,
        Pend(t.undefined - Members(defined), undefined, definedAfter, libname),
        Tagged(t.packages, package, key)))
  }

  lemma KeysMonotone(a: set<string>, b: set<string>)
    requires a <= b
    ensures Keys(a) <= Keys(b)
  {
  }

  lemma KeysUnion(a: set<string>, b: set<string>)
    ensures Keys(a + b) == Keys(a) + Keys(b)
  {
  }

  lemma AddNeedsTwice(libraries: map<string, Library>, k1: set<string>, k2: set<string>, tgt: string)
    ensures AddNeeds(AddNeeds(libraries, k1, tgt), k2, tgt) == AddNeeds(libraries, k1 + k2, tgt)
  {
    var lhs := AddNeeds(AddNeeds(libraries, k1, tgt), k2, tgt);
    var rhs := AddNeeds(libraries, k1 + k2, tgt);
    forall k | k in lhs
      ensures lhs[k] == rhs[k]
    {
      var d := libraries[k].dependencies;
      assert d + {tgt} + {tgt} == d + {tgt};
    }
  }

  /** A library table entry filed under its own file name is found by that name. */
  lemma LookupFiled(libraries: map<string, Library>, libname: string)
    requires StripLibraryName(libname) in libraries && libraries[StripLibraryName(libname)].filename == libname
    ensures Lookup(libraries, libname).Some?
  {
  }

  /** After the definitions of `symbols[..i + 1]`, the waiting files are those of `symbols[..i]` and the newly popped set. */
  lemma WaitingStep(undefined: map<string, set<string>>, symbols: seq<string>, i: int)
    requires 0 <= i < |symbols|
    ensures Waiting(undefined, symbols[..i + 1]) ==
              Waiting(undefined, symbols[..i]) + Cache.PendingOn(undefined - Members(symbols[..i]), symbols[i])
  {
    assert symbols[..i + 1][..i] == symbols[..i];
    if symbols[i] in Members(symbols[..i]) {
      var j :| 0 <= j < i && symbols[..i][j] == symbols[i];
      assert Cache.PendingOn(undefined, symbols[i]) <= Waiting(undefined, symbols[..i]);
    }
  }

  lemma WaitingPrefix(undefined: map<string, set<string>>, symbols: seq<string>, i: int)
    requires 0 <= i <= |symbols|
    ensures Waiting(undefined, symbols[..i]) <= Waiting(undefined, symbols)
  {
    assert forall j :: 0 <= j < i ==> symbols[..i][j] == symbols[j];
  }

  /**
    The inner loop of the definitions: every file handed back needs `libname`,
    unless it is `libname` itself; `ok` is false where Python raises
    (`add_dependency` on a file that is not catalogued).
   */
  method LinkDependents(cache: Cache, dependents: set<string>, libname: string) returns (ok: bool)
    requires cache.Valid()
    modifies cache`libraries
    ensures cache.Valid()
    ensures ok <==> Keys(dependents - {libname}) <= old(cache.libraries).Keys
    ensures ok ==> cache.libraries == AddNeeds(old(cache.libraries), Keys(dependents - {libname}), libname)
  {
    ghost var start := cache.libraries;
    var todo := dependents;
    while todo != {}
      invariant todo <= dependents
      invariant cache.Valid()
      invariant Keys(dependents - todo - {libname}) <= start.Keys
      invariant cache.libraries == AddNeeds(start, Keys(dependents - todo - {libname}), libname)
      decreases todo
    {
      var dl :| dl in todo;
      ghost var done := dependents - todo - {libname};
      var added := cache.AddDependency(dl, libname);
      if !added {
        KeysMonotone({dl}, dependents - {libname});
        return false;
      }
      if dl == libname {
        assert dependents - (todo - {dl}) - {libname} == done;
      } else {
        assert dependents - (todo - {dl}) - {libname} == done + {dl};
        KeysAddOne(done, dl);
        AddNeedsStep(start, Keys(done), StripLibraryName(dl), libname);
      }
      todo := todo - {dl};
      assert cache.libraries == AddNeeds(start, Keys(dependents - todo - {libname}), libname);
    }
    assert dependents - todo - {libname} == dependents - {libname};
    ok := true;
  }

  /** Adding `tgt` to the needs of the library under one more key. */
  lemma AddNeedsStep(start: map<string, Library>, keys: set<string>, key: string, tgt: string)
    requires key in start
    ensures var now := AddNeeds(start, keys, tgt);
            now[key := now[key].(dependencies := now[key].dependencies + {tgt})] == AddNeeds(start, keys + {key}, tgt)
  {
    AddNeedsTwice(start, keys, {key}, tgt);
    var now := AddNeeds(start, keys, tgt);
    assert now[key := now[key].(dependencies := now[key].dependencies + {tgt})] == AddNeeds(now, {key}, tgt);
  }

  lemma KeysAddOne(files: set<string>, f: string)
    ensures Keys(files + {f}) == Keys(files) + {StripLibraryName(f)}
  {
    KeysUnion(files, {f});
  }

  /**
    The first loop of `_update_cache`: `libname` becomes the definer of each
    symbol, and the files that waited for them need it.
   */
  method DefineAll(cache: Cache, libname: string, symbols: seq<string>) returns (ok: bool)
    requires cache.Valid()
    requires StripLibraryName(libname) in cache.libraries && cache.libraries[StripLibraryName(libname)].filename == libname
    modifies cache`libraries, cache`definedSymbols, cache`undefinedSymbols
    ensures cache.Valid()
    ensures ok <==> Keys(Waiting(old(cache.undefinedSymbols), symbols) - {libname}) <= old(cache.libraries).Keys
    ensures ok ==> cache.libraries == AddNeeds(old(cache.libraries), Keys(Waiting(old(cache.undefinedSymbols), symbols) - {libname}), libname)
    ensures ok ==> cache.definedSymbols == old(cache.definedSymbols) + Filing(Members(symbols), libname)
    ensures ok ==> cache.undefinedSymbols == old(cache.undefinedSymbols) - Members(symbols)
  {
    ghost var libs0 := cache.libraries;
    ghost var defined0 := cache.definedSymbols;
    ghost var undefined0 := cache.undefinedSymbols;
    var i := 0;
    while i < |symbols|
      invariant 0 <= i <= |symbols|
      invariant cache.Valid()
      invariant StripLibraryName(libname) in cache.libraries && cache.libraries[StripLibraryName(libname)].filename == libname
      invariant cache.definedSymbols == defined0 + Filing(Members(symbols[..i]), libname)
      invariant cache.undefinedSymbols == undefined0 - Members(symbols[..i])
      invariant Keys(Waiting(undefined0, symbols[..i]) - {libname}) <= libs0.Keys
      invariant cache.libraries == AddNeeds(libs0, Keys(Waiting(undefined0, symbols[..i]) - {libname}), libname)
    {
      ghost var more := Cache.PendingOn(cache.undefinedSymbols, symbols[i]) - {libname};
      ok := DefineOne(cache, libname, symbols[i]);
      DefinedStep(defined0, symbols, i, libname);
      PendingStep(undefined0, symbols, i);
      WaitingOther(undefined0, symbols, i, libname);
      WaitingPrefix(undefined0, symbols, i + 1);
      LinkStep(libs0, Waiting(undefined0, symbols[..i]) - {libname}, more, Waiting(undefined0, symbols) - {libname}, libname);
      if !ok {
        return;
      }
      AddNeedsKeepsFile(libs0, Keys(Waiting(undefined0, symbols[..i + 1]) - {libname}), libname, StripLibraryName(libname));
      i := i + 1;
      assert cache.libraries == AddNeeds(libs0, Keys(Waiting(undefined0, symbols[..i]) - {libname}), libname);
    }
    assert symbols[..i] == symbols;
    ok := true;
  }

  /**
    One pass of the first loop: `libname` becomes the definer of `symbol` and
    every file that waited for it, other than `libname`, needs `libname`.
   */
  method DefineOne(cache: Cache, libname: string, symbol: string) returns (ok: bool)
    requires cache.Valid()
    requires StripLibraryName(libname) in cache.libraries && cache.libraries[StripLibraryName(libname)].filename == libname
    modifies cache`libraries, cache`definedSymbols, cache`undefinedSymbols
    ensures cache.Valid()
    ensures cache.definedSymbols == old(cache.definedSymbols)[symbol := libname]
    ensures cache.undefinedSymbols == old(cache.undefinedSymbols) - {symbol}
    ensures var more := Cache.PendingOn(old(cache.undefinedSymbols), symbol) - {libname};
            && (ok <==> Keys(more) <= old(cache.libraries).Keys)
            && (ok ==> cache.libraries == AddNeeds(old(cache.libraries), Keys(more), libname))
  {
    LookupFiled(cache.libraries, libname);
    var dependents := cache.DefineSymbol(symbol, libname);
    ok := LinkDependents(cache, dependents, libname);
  }

  /** Adding needs leaves every entry's file name as it was. */
  lemma AddNeedsKeepsFile(libraries: map<string, Library>, keys: set<string>, tgt: string, key: string)
    requires key in libraries
    ensures key in AddNeeds(libraries, keys, tgt) && AddNeeds(libraries, keys, tgt)[key].filename == libraries[key].filename
  {
  }

  lemma MembersStep(symbols: seq<string>, i: int)
    requires 0 <= i < |symbols|
    ensures Members(symbols[..i + 1]) == Members(symbols[..i]) + {symbols[i]}
  {
    assert symbols[..i + 1] == symbols[..i] + [symbols[i]];
  }

  /** The definitions after one more symbol. */
  lemma DefinedStep(defined0: map<string, string>, symbols: seq<string>, i: int, libname: string)
    requires 0 <= i < |symbols|
    ensures (defined0 + Filing(Members(symbols[..i]), libname))[symbols[i] := libname] == defined0 + Filing(Members(symbols[..i + 1]), libname)
  {
    MembersStep(symbols, i);
  }

  /** The pending references after one more symbol. */
  lemma PendingStep(undefined0: map<string, set<string>>, symbols: seq<string>, i: int)
    requires 0 <= i < |symbols|
    ensures (undefined0 - Members(symbols[..i])) - {symbols[i]} == undefined0 - Members(symbols[..i + 1])
  {
    MembersStep(symbols, i);
  }

  /** The files handed back after one more symbol. */
  lemma WaitingOther(undefined0: map<string, set<string>>, symbols: seq<string>, i: int, libname: string)
    requires 0 <= i < |symbols|
    ensures Waiting(undefined0, symbols[..i + 1]) - {libname} ==
              (Waiting(undefined0, symbols[..i]) - {libname}) + (Cache.PendingOn(undefined0 - Members(symbols[..i]), symbols[i]) - {libname})
  {
    WaitingStep(undefined0, symbols, i);
  }

  /** Linking one more batch of dependents, or finding one that is not catalogued. */
  lemma LinkStep(libs0: map<string, Library>, waited: set<string>, more: set<string>, all: set<string>, libname: string)
    requires waited + more <= all
    ensures Keys(waited + more) == Keys(waited) + Keys(more)
    ensures !(Keys(more) <= libs0.Keys) ==> !(Keys(all) <= libs0.Keys)
    ensures AddNeeds(AddNeeds(libs0, Keys(waited), libname), Keys(more), libname) == AddNeeds(libs0, Keys(waited + more), libname)
  {
    KeysUnion(waited, more);
    KeysMonotone(more, all);
    AddNeedsTwice(libs0, Keys(waited), Keys(more), libname);
  }

  /**
    The second loop of `_update_cache`: `libname` needs the known definer of
    each symbol it references, and waits for the others.
   */
  method ResolveAll(cache: Cache, libname: string, symbols: seq<string>)
    requires cache.Valid()
    requires StripLibraryName(libname) in cache.libraries
    modifies cache`libraries, cache`undefinedSymbols
    ensures cache.Valid()
    ensures cache.libraries == WithNeeds(old(cache.libraries), StripLibraryName(libname), Definers(cache.definedSymbols, symbols) - {libname})
    ensures cache.undefinedSymbols == Pend(old(cache.undefinedSymbols), symbols, cache.definedSymbols, libname)
  {
    var key := StripLibraryName(libname);
    ghost var libs0 := cache.libraries;
    ghost var undefined0 := cache.undefinedSymbols;
    var i := 0;
    while i < |symbols|
      invariant 0 <= i <= |symbols|
      invariant cache.Valid() && key in cache.libraries
      invariant NeedsFrom(cache.libraries, key, symbols, i, cache.definedSymbols, libname) == NeedsFrom(libs0, key, symbols, 0, cache.definedSymbols, libname)
      invariant PendFrom(cache.undefinedSymbols, symbols, i, cache.definedSymbols, libname) == PendFrom(undefined0, symbols, 0, cache.definedSymbols, libname)
    {
      ResolveOne(cache, libname, symbols[i]);
      i := i + 1;
      assert NeedsFrom(cache.libraries, key, symbols, i, cache.definedSymbols, libname) == NeedsFrom(libs0, key, symbols, 0, cache.definedSymbols, libname);
      assert PendFrom(cache.undefinedSymbols, symbols, i, cache.definedSymbols, libname) == PendFrom(undefined0, symbols, 0, cache.definedSymbols, libname);
    }
    NeedsFromMeaning(libs0, key, symbols, 0, cache.definedSymbols, libname);
    PendFromMeaning(undefined0, symbols, 0, cache.definedSymbols, libname);
    assert symbols[0..] == symbols;
  }

  /**
    One reference of `libname` to `symbol`: a known definer becomes a
    dependency, otherwise `libname` waits for the symbol.
   */
  method ResolveOne(cache: Cache, libname: string, symbol: string)
    requires cache.Valid()
    requires StripLibraryName(libname) in cache.libraries
    modifies cache`libraries, cache`undefinedSymbols
    ensures cache.Valid()
    ensures cache.libraries == NeedsStep(old(cache.libraries), StripLibraryName(libname), symbol, cache.definedSymbols, libname)
    ensures cache.undefinedSymbols ==
              if Known(cache.definedSymbols, symbol) then old(cache.undefinedSymbols)
              else old(cache.undefinedSymbols)[symbol := Cache.PendingOn(old(cache.undefinedSymbols), symbol) + {libname}]
  {
    ghost var libs0 := cache.libraries;
    ghost var key := StripLibraryName(libname);
    var definer := cache.GetLibraryDefiningSymbol(symbol);
    if definer.Some? && definer.value != "" {
      assert Known(cache.definedSymbols, symbol) && cache.definedSymbols[symbol] == definer.value;
      var linked := cache.AddDependency(libname, definer.value);
      assert cache.libraries == NeedsStep(libs0, key, symbol, cache.definedSymbols, libname);
    } else {
      assert !Known(cache.definedSymbols, symbol);
      cache.AddUndefinedSymbolDependency(symbol, libname);
    }
  }


  /** The library table with `extra` added to the needs of the entry under `key`. */
  function WithNeeds(libraries: map<string, Library>, key: string, extra: set<string>): (r: map<string, Library>)
    requires key in libraries
    ensures r.Keys == libraries.Keys
  {
    libraries[key := libraries[key].(dependencies := libraries[key].dependencies + extra)]
  }





  /** The library table once the entry under `key` needs the known definer of `u`, unless that is `f` itself. */
  function NeedsStep(libraries: map<string, Library>, key: string, u: string, defined: map<string, string>, f: string): (r: map<string, Library>)
    requires key in libraries
    ensures r.Keys == libraries.Keys
  {
    if Known(defined, u) && defined[u] != f then WithNeeds(libraries, key, {defined[u]}) else libraries
  }

  /** The library table built reference by reference, from index `i` on. */
  function NeedsFrom(libraries: map<string, Library>, key: string, symbols: seq<string>, i: nat, defined: map<string, string>, f: string): (r: map<string, Library>)
    requires key in libraries && i <= |symbols|
    ensures r.Keys == libraries.Keys
    decreases |symbols| - i
  {
    if i == |symbols| then libraries
    else NeedsFrom(NeedsStep(libraries, key, symbols[i], defined, f), key, symbols, i + 1, defined, f)
  }

  /** Linking the references one by one adds to the entry under `key` exactly the known definers other than `f`. */
  lemma {:induction false} NeedsFromMeaning(libraries: map<string, Library>, key: string, symbols: seq<string>, i: nat, defined: map<string, string>, f: string)
    requires key in libraries && i <= |symbols|
    ensures NeedsFrom(libraries, key, symbols, i, defined, f) == WithNeeds(libraries, key, Definers(defined, symbols[i..]) - {f})
    decreases |symbols| - i
  {
    if i == |symbols| {
      assert Definers(defined, symbols[i..]) - {f} == {};
      WithNeedsNone(libraries, key);
    } else {
      var u := symbols[i];
      var next := NeedsStep(libraries, key, u, defined, f);
      NeedsFromMeaning(next, key, symbols, i + 1, defined, f);
      var rest := Definers(defined, symbols[i + 1..]) - {f};
      var own := if Known(defined, u) && defined[u] != f then {defined[u]} else {};
      DefinersFirst(defined, u, symbols[i + 1..], f);
      assert symbols[i..] == [u] + symbols[i + 1..];
      assert next == WithNeeds(libraries, key, own) by {
        if own == {} {
          WithNeedsNone(libraries, key);
        }
      }
      WithNeedsTwice(libraries, key, own, rest);
    }
  }

  lemma WithNeedsNone(libraries: map<string, Library>, key: string)
    requires key in libraries
    ensures WithNeeds(libraries, key, {}) == libraries
  {
    var lib := libraries[key];
    assert lib.dependencies + {} == lib.dependencies;
    assert lib.(dependencies := lib.dependencies + {}) == lib;
  }

  lemma WithNeedsTwice(libraries: map<string, Library>, key: string, a: set<string>, b: set<string>)
    requires key in libraries
    ensures WithNeeds(WithNeeds(libraries, key, a), key, b) == WithNeeds(libraries, key, a + b)
  {
    var d := libraries[key].dependencies;
    assert d + a + b == d + (a + b);
  }

  lemma DefinersFirst(defined: map<string, string>, u: string, rest: seq<string>, f: string)
    ensures Definers(defined, [u] + rest) - {f} ==
              (if Known(defined, u) && defined[u] != f then {defined[u]} else {}) + (Definers(defined, rest) - {f})
  {
  }

  /** The pending table built reference by reference, from index `i` on. */
  function PendFrom(pending: map<string, set<string>>, symbols: seq<string>, i: nat, defined: map<string, string>, f: string): map<string, set<string>>
    requires i <= |symbols|
    decreases |symbols| - i
  {
    if i == |symbols| then pending
    else
      var u := symbols[i];
      PendFrom(if Known(defined, u) then pending else pending[u := Cache.PendingOn(pending, u) + {f}], symbols, i + 1, defined, f)
  }

  /** Registering the references one by one gives the pending table `Pend` describes. */
  lemma {:induction false} PendFromMeaning(pending: map<string, set<string>>, symbols: seq<string>, i: nat, defined: map<string, string>, f: string)
    requires i <= |symbols|
    ensures PendFrom(pending, symbols, i, defined, f) == Pend(pending, symbols[i..], defined, f)
    decreases |symbols| - i
  {
    if i == |symbols| {
      PendNone(pending, defined, f);
    } else {
      var u := symbols[i];
      var next := if Known(defined, u) then pending else pending[u := Cache.PendingOn(pending, u) + {f}];
      PendFromMeaning(next, symbols, i + 1, defined, f);
      PendFirst(pending, u, symbols[i + 1..], defined, f);
      assert symbols[i..] == [u] + symbols[i + 1..];
    }
  }

  lemma PendNone(pending: map<string, set<string>>, defined: map<string, string>, f: string)
    ensures Pend(pending, [], defined, f) == pending
  {
    assert (map u | u in [] && !Known(defined, u) :: Cache.PendingOn(pending, u) + {f}) == map[];
  }

  /** Registering the first reference ahead of the rest gives the same table. */
  lemma PendFirst(pending: map<string, set<string>>, u: string, rest: seq<string>, defined: map<string, string>, f: string)
    ensures var next := if Known(defined, u) then pending else pending[u := Cache.PendingOn(pending, u) + {f}];
            Pend(next, rest, defined, f) == Pend(pending, [u] + rest, defined, f)
  {
  }



  /**
    `_update_cache`: files `libname`, then its definitions, then its
    references; `ok` is false where Python raises (and the tables are then
    left part-way).
   */
  method UpdateCache(cache: Cache, libname: string, defined: seq<string>, undefined: seq<string>, package: Option<string>, system: bool)
    returns (ok: bool)
    requires cache.Valid()
    modifies cache`libraries, cache`definedSymbols, cache`undefinedSymbols, cache`packages
    ensures cache.Valid()
    ensures ok <==> Update(old(Snapshot(cache)), libname, defined, undefined, package, system).Some?
    ensures ok ==> Snapshot(cache) == Update(old(Snapshot(cache)), libname, defined, undefined, package, system).value
  {
    ghost var t0 := Snapshot(cache);
    cache.AddLibrary(libname, system, package);
    ghost var registered := cache.libraries;
    UpdateFails(t0, libname, defined, undefined, package, system, registered);
    ok := DefineAll(cache, libname, defined);
    if !ok {
      return;
    }
    ghost var linked := cache.libraries;
    ResolveAll(cache, libname, undefined);
    UpdateSucceeds(t0, libname, defined, undefined, package, system, registered, linked, Snapshot(cache));
  }

  /** `Update` fails exactly when a waiting file is filed under no key of the tables `add_library` leaves. */
  lemma UpdateFails(t: Tables, libname: string, defined: seq<string>, undefined: seq<string>, package: Option<string>, system: bool,
                    registered: map<string, Library>)
    requires registered == t.libraries[StripLibraryName(libname) := NewLibrary(libname, system)]
    ensures Update(t, libname, defined, undefined, package, system).Some? <==> Keys(Waiting(t.undefined, defined) - {libname}) <= registered.Keys
  {
  }

  /** `Update` in terms of the tables each step of `_update_cache` leaves. */
  lemma UpdateSucceeds(t: Tables, libname: string, defined: seq<string>, undefined: seq<string>, package: Option<string>, system: bool,
                       registered: map<string, Library>, linked: map<string, Library>, r: Tables)
    requires registered == t.libraries[StripLibraryName(libname) := NewLibrary(libname, system)]
    requires Keys(Waiting(t.undefined, defined) - {libname}) <= registered.Keys
    requires linked == AddNeeds(registered, Keys(Waiting(t.undefined, defined) - {libname}), libname)
    requires r.defined == t.defined + Filing(Members(defined), libname)
    requires StripLibraryName(libname) in linked
    requires r.libraries == WithNeeds(linked, StripLibraryName(libname), Definers(r.defined, undefined) - {libname})
    requires r.undefined == Pend(t.undefined - Members(defined), undefined, r.defined, libname)
    requires package.Some? && package.value != "" ==>
               r.packages == t.packages[package.value := Cache.PackageMembers(t.packages, package.value) + {StripLibraryName(libname)}]
    requires !(package.Some? && package.value != "") ==> r.packages == t.packages
    ensures Update(t, libname, defined, undefined, package, system) == Some(r)
  {
  }

  // ---------------------------------------------------------------------
  // What `_update_cache` promises
  // ---------------------------------------------------------------------

  /** The update fails exactly when a file waiting for one of the new definitions is not catalogued. */
  lemma UpdateFailsIff(t: Tables, libname: string, defined: seq<string>, undefined: seq<string>, package: Option<string>, system: bool)
    ensures Update(t, libname, defined, undefined, package, system).None? <==>
              exists k :: k in Keys(Waiting(t.undefined, defined) - {libname}) && k !in t.libraries && k != StripLibraryName(libname)
  {
  }

  /** Every defined symbol is now defined by `libname`. */
  lemma UpdateDefines(t: Tables, libname: string, defined: seq<string>, undefined: seq<string>, package: Option<string>, system: bool)
    requires Update(t, libname, defined, undefined, package, system).Some?
    ensures var r := Update(t, libname, defined, undefined, package, system).value;
            forall x :: x in defined ==> x in r.defined && r.defined[x] == libname
  {
  }

  /** No defined symbol is pending any more (unless the file name is empty, which `if definer:` rejects). */
  lemma UpdateDefinedNotPending(t: Tables, libname: string, defined: seq<string>, undefined: seq<string>, package: Option<string>, system: bool)
    requires libname != ""
    requires Update(t, libname, defined, undefined, package, system).Some?
    ensures var r := Update(t, libname, defined, undefined, package, system).value;
            forall x :: x in defined ==> x !in r.undefined
  {
  }

  /** Every file that waited for one of the definitions, other than `libname`, now needs `libname`. */
  lemma UpdateLinksDependents(t: Tables, libname: string, defined: seq<string>, undefined: seq<string>, package: Option<string>, system: bool)
    requires Update(t, libname, defined, undefined, package, system).Some?
    ensures var r := Update(t, libname, defined, undefined, package, system).value;
            forall k :: k in Keys(Waiting(t.undefined, defined) - {libname}) ==> k in r.libraries && libname in r.libraries[k].dependencies
  {
  }

  /** `libname` needs the known definer of each of its references, unless that is itself. */
  lemma UpdateLinksDefiners(t: Tables, libname: string, defined: seq<string>, undefined: seq<string>, package: Option<string>, system: bool)
    requires Update(t, libname, defined, undefined, package, system).Some?
    ensures var r := Update(t, libname, defined, undefined, package, system).value;
            var key := StripLibraryName(libname);
            key in r.libraries &&
            forall u :: u in undefined && Known(r.defined, u) && r.defined[u] != libname ==> r.defined[u] in r.libraries[key].dependencies
  {
  }

  /** `libname` waits for each of its references without a known definer. */
  lemma UpdatePends(t: Tables, libname: string, defined: seq<string>, undefined: seq<string>, package: Option<string>, system: bool)
    requires Update(t, libname, defined, undefined, package, system).Some?
    ensures var r := Update(t, libname, defined, undefined, package, system).value;
            forall u :: u in undefined && !Known(r.defined, u) ==> u in r.undefined && libname in r.undefined[u]
  {
  }

  function EmptyTables(): Tables
  {
    Tables(map[], map[], map[], map[])
  }

  lemma WaitingOne(undefined: map<string, set<string>>, s: string)
    ensures Waiting(undefined, [s]) == Cache.PendingOn(undefined, s)
  {
    assert [s][..0] == [];
  }

  lemma PendOne(pending: map<string, set<string>>, s: string, defined: map<string, string>, f: string)
    ensures Pend(pending, [s], defined, f) == if Known(defined, s) then pending else pending[s := Cache.PendingOn(pending, s) + {f}]
  {
    PendFirst(pending, s, [], defined, f);
    assert [s] + [] == [s];
    PendNone(if Known(defined, s) then pending else pending[s := Cache.PendingOn(pending, s) + {f}], defined, f);
  }

  /** Registering a library that defines nothing: its references are resolved or left pending. */
  lemma UpdateWithoutDefinitions(t: Tables, libname: string, undefined: seq<string>)
    ensures var key := StripLibraryName(libname);
            var registered := t.libraries[key := NewLibrary(libname, false)];
            Update(t, libname, [], undefined, None, false) ==
            Some(Tables(WithNeeds(registered, key, Definers(t.defined, undefined) - {libname}), t.defined,
                        Pend(t.undefined, undefined, t.defined, libname), t.packages))
  {
    var key := StripLibraryName(libname);
    var registered := t.libraries[key := NewLibrary(libname, false)];
    assert Waiting(t.undefined, []) - {libname} == {};
    assert Keys({}) == {};
    assert AddNeeds(registered, {}, libname) == registered;
    assert Members([]) == {};
    assert t.defined + Filing({}, libname) == t.defined;
    assert t.undefined - {} == t.undefined;
  }

  /** Registering a library that references nothing: its definitions are filed and their waiters linked. */
  lemma UpdateWithoutReferences(t: Tables, libname: string, defined: seq<string>)
    requires Keys(Waiting(t.undefined, defined) - {libname}) <= t.libraries.Keys + {StripLibraryName(libname)}
    ensures var key := StripLibraryName(libname);
            var registered := t.libraries[key := NewLibrary(libname, false)];
            Update(t, libname, defined, [], None, false) ==
            Some(Tables(AddNeeds(registered, Keys(Waiting(t.undefined, defined) - {libname}), libname),
                        t.defined + Filing(Members(defined), libname), t.undefined - Members(defined), t.packages))
  {
    var key := StripLibraryName(libname);
    var registered := t.libraries[key := NewLibrary(libname, false)];
    var linked := AddNeeds(registered, Keys(Waiting(t.undefined, defined) - {libname}), libname);
    var definedAfter := t.defined + Filing(Members(defined), libname);
    assert registered.Keys == t.libraries.Keys + {key};
    assert Definers(definedAfter, []) - {libname} == {};
    WithNeedsNone(linked, key);
    PendNone(t.undefined - Members(defined), definedAfter, libname);
  }

  /**
    Registering `libname` with the single reference `s`: it is filed, and it
    needs the known definer of `s` or else waits for `s`.
   */
  lemma ReferenceStep(t: Tables, libname: string, s: string)
    ensures var key := StripLibraryName(libname);
            var registered := t.libraries[key := NewLibrary(libname, false)];
            Update(t, libname, [], [s], None, false) ==
            if Known(t.defined, s) then
              Some(Tables(WithNeeds(registered, key, {t.defined[s]} - {libname}), t.defined, t.undefined, t.packages))
            else
              Some(Tables(registered, t.defined, t.undefined[s := Cache.PendingOn(t.undefined, s) + {libname}], t.packages))
  {
    var key := StripLibraryName(libname);
    var registered := t.libraries[key := NewLibrary(libname, false)];
    UpdateWithoutDefinitions(t, libname, [s]);
    PendOne(t.undefined, s, t.defined, libname);
    if Known(t.defined, s) {
      assert Definers(t.defined, [s]) - {libname} == {t.defined[s]} - {libname};
    } else {
      assert Definers(t.defined, [s]) - {libname} == {};
      WithNeedsNone(registered, key);
    }
  }

  /**
    Registering `libname` as the definer of the single symbol `s`: every file
    waiting for `s` (other than `libname`) needs it, and `s` is no longer pending.
   */
  lemma DefinitionStep(t: Tables, libname: string, s: string)
    requires Keys(Cache.PendingOn(t.undefined, s) - {libname}) <= t.libraries.Keys + {StripLibraryName(libname)}
    ensures var key := StripLibraryName(libname);
            var registered := t.libraries[key := NewLibrary(libname, false)];
            Update(t, libname, [s], [], None, false) ==
            Some(Tables(AddNeeds(registered, Keys(Cache.PendingOn(t.undefined, s) - {libname}), libname),
                        t.defined[s := libname], t.undefined - {s}, t.packages))
  {
    WaitingOne(t.undefined, s);
    MembersOne(s);
    FilingOne(t.defined, s, libname);
    UpdateWithoutReferences(t, libname, [s]);
  }

  lemma MembersOne(s: string)
    ensures Members([s]) == {s}
  {
    assert s in [s];
  }

  lemma FilingOne(defined: map<string, string>, s: string, libname: string)
    ensures defined + Filing({s}, libname) == defined[s := libname]
  {
  }

  /**
    A library registered with one reference `s`, before anything defines it:
    it is filed and waits for `s`.
   */
  lemma FirstReference(libname: string, s: string)
    ensures Update(EmptyTables(), libname, [], [s], None, false) ==
            Some(Tables(map[StripLibraryName(libname) := NewLibrary(libname, false)], map[], map[s := {libname}], map[]))
  {
    ReferenceStep(EmptyTables(), libname, s);
    assert Cache.PendingOn(map[], s) + {libname} == {libname};
  }

  /** A library registered as the definer of `s` on empty tables: it is filed and defines `s`. */
  lemma FirstDefinition(libname: string, s: string)
    ensures Update(EmptyTables(), libname, [s], [], None, false) ==
            Some(Tables(map[StripLibraryName(libname) := NewLibrary(libname, false)], map[s := libname], map[], map[]))
  {
    var key := StripLibraryName(libname);
    var registered := map[key := NewLibrary(libname, false)];
    assert Cache.PendingOn(map[], s) - {libname} == {};
    assert Keys({}) == {};
    DefinitionStep(EmptyTables(), libname, s);
    assert AddNeeds(registered, {}, libname) == registered;
  }

  /**
    Resolution does not depend on the order of registration: a library that
    references `s` before its definer is registered still ends up needing it,
    and nothing is left pending (`librabbit.so` and `libtortoise.so`).
   */
  lemma ReferenceBeforeDefinition(rabbit: string, tortoise: string, s: string)
    requires tortoise != "" && rabbit != tortoise && StripLibraryName(rabbit) != StripLibraryName(tortoise)
    ensures var t1 := Update(EmptyTables(), rabbit, [], [s], None, false);
            && t1.Some?
            && var t2 := Update(t1.value, tortoise, [s], [], None, false);
            && t2.Some?
            && StripLibraryName(rabbit) in t2.value.libraries
            && tortoise in t2.value.libraries[StripLibraryName(rabbit)].dependencies
            && t2.value.undefined == map[]
  {
    FirstReference(rabbit, s);
    var t1 := Tables(map[StripLibraryName(rabbit) := NewLibrary(rabbit, false)], map[], map[s := {rabbit}], map[]);
    assert t1.undefined.Keys == {s};
    DefinerArrives(t1, rabbit, tortoise, s);
  }

  /** A definer registered while one library alone waits for its symbol resolves the wait. */
  lemma DefinerArrives(t: Tables, waiter: string, definer: string, s: string)
    requires t.undefined.Keys == {s} && t.undefined[s] == {waiter} && StripLibraryName(waiter) in t.libraries
    requires waiter != definer && StripLibraryName(waiter) != StripLibraryName(definer)
    ensures var r := Update(t, definer, [s], [], None, false);
            && r.Some?
            && StripLibraryName(waiter) in r.value.libraries
            && definer in r.value.libraries[StripLibraryName(waiter)].dependencies
            && r.value.undefined == map[]
  {
    var registered := t.libraries[StripLibraryName(definer) := NewLibrary(definer, false)];
    assert Cache.PendingOn(t.undefined, s) - {definer} == {waiter};
    KeysOne(waiter);
    DefinitionStep(t, definer, s);
    AddNeedsOne(registered, StripLibraryName(waiter), definer);
    RemoveOnlyKey(t.undefined, s);
  }

  lemma AddNeedsOne(libraries: map<string, Library>, key: string, tgt: string)
    requires key in libraries
    ensures key in AddNeeds(libraries, {key}, tgt) && tgt in AddNeeds(libraries, {key}, tgt)[key].dependencies
  {
  }

  lemma RemoveOnlyKey(m: map<string, set<string>>, s: string)
    requires m.Keys == {s}
    ensures m - {s} == map[]
  {
  }

  lemma KeysOne(l: string)
    ensures Keys({l}) == {StripLibraryName(l)}
  {
  }

  /** The same two libraries registered the other way round give the same dependency. */
  lemma DefinitionBeforeReference(rabbit: string, tortoise: string, s: string)
    requires tortoise != "" && rabbit != tortoise && StripLibraryName(rabbit) != StripLibraryName(tortoise)
    ensures var t1 := Update(EmptyTables(), tortoise, [s], [], None, false);
            && t1.Some?
            && var t2 := Update(t1.value, rabbit, [], [s], None, false);
            && t2.Some?
            && StripLibraryName(rabbit) in t2.value.libraries
            && tortoise in t2.value.libraries[StripLibraryName(rabbit)].dependencies
            && t2.value.undefined == map[]
  {
    FirstDefinition(tortoise, s);
    var t1 := Update(EmptyTables(), tortoise, [s], [], None, false).value;
    assert t1.defined == map[s := tortoise];
    ReferenceStep(t1, rabbit, s);
    assert Known(t1.defined, s);
    assert {tortoise} - {rabbit} == {tortoise};
  }
}

/**
  The parts of `pathlib.PurePath` the catalog uses on library file names
  (`name`, `stem`, `suffix`), and the two name helpers of data.py:
  `strip_library_name` and `_different_extension`.
 */
module Paths {
  import opened Text

  /**
    `PurePath(p).name`: the final path component. Empty components (a doubled or
    trailing `/`) and `.` components are not components, so `a/b/` and `a/b/.`
    both end in `b`, and `.` or `/` have no name at all.
   */
  function Name(p: string): (r: string)
    ensures '/' !in r && r != "."
    decreases |p|
  {
    var i := LastIndexOf(p, '/');
    var last := p[i + 1..];
    if last != "" && last != "." then last
    else if i < 0 then ""
    else Name(p[..i])
  }

  /** Where the extension starts: the last `.`, counted only when it is neither first nor last. */
  predicate HasSuffix(n: string)
  {
    var i := LastIndexOf(n, '.');
    0 < i < |n| - 1
  }

  /** `PurePath(p).suffix`: the last extension of the name, dot included, or "". */
  function Suffix(p: string): (r: string)
    ensures r == "" || (|r| >= 2 && r[0] == '.' && '.' !in r[1..])
  {
    var n := Name(p);
    var i := LastIndexOf(n, '.');
    if 0 < i < |n| - 1 then n[i..] else ""
  }

  /** `PurePath(p).stem`: the name without its last extension. */
  function Stem(p: string): (r: string)
    ensures Name(p) != "" ==> r != ""
  {
    var n := Name(p);
    var i := LastIndexOf(n, '.');
    if 0 < i < |n| - 1 then n[..i] else n
  }

  /** The stem and the suffix split the name: `Stem(p) + Suffix(p) == Name(p)`. */
  lemma StemSuffix(p: string)
    ensures Stem(p) + Suffix(p) == Name(p)
  {
    var n := Name(p);
    var i := LastIndexOf(n, '.');
    if 0 < i < |n| - 1 {
      assert n[..i] + n[i..] == n;
    } else {
      assert n + "" == n;
    }
  }

  /** The stem is a prefix of the name, followed in the name by the suffix's dot when it is shorter. */
  lemma StemPrefix(p: string)
    ensures Stem(p) <= Name(p)
    ensures |Stem(p)| < |Name(p)| ==> Name(p)[|Stem(p)|] == '.'
  {
    StemSuffix(p);
    assert Name(p)[..|Stem(p)|] == Stem(p);
  }

  /** `strip_library_name`: the key a library is filed under, e.g. `libfoo.so` is `foo`. */
  function StripLibraryName(name: string): (r: string)
    ensures '/' !in r
    ensures "lib" + r == Stem(name) || (r == Stem(name) && !("lib" <= Stem(name)))
  {
    assert forall k :: 0 <= k < |Stem(name)| ==> Stem(name)[k] in Name(name);
    RemovePrefix(Stem(name), "lib")
  }

  /** `_different_extension`: `first` names an extension and it is not the one of `second`. */
  predicate DifferentExtension(first: string, second: string)
    ensures DifferentExtension(first, second) ==> HasSuffix(Name(first))
  {
    Suffix(first) != "" && Suffix(first) != Suffix(second)
  }

  /** A plain file name (no `/`, not `.`, not empty) is its own name. */
  lemma NameOfFileName(n: string)
    requires n != "" && n != "." && '/' !in n
    ensures Name(n) == n
  {
    assert n[0..] == n;
  }

  /** The directory part never matters: `Name(dir/n) == n`. */
  lemma NameDropsDirectory(dir: string, n: string)
    requires n != "" && n != "." && '/' !in n
    ensures Name(dir + "/" + n) == n
  {
    var p := dir + "/" + n;
    assert p[|dir|] == '/';
    assert forall j :: |dir| < j < |p| ==> p[j] == n[j - |dir| - 1];
    assert LastIndexOf(p, '/') == |dir|;
    assert p[|dir| + 1..] == n;
  }

  /** Searching below `end` finds `c` at `i` when no character between them is `c`. */
  lemma {:induction false} LastIndexBelowAt(s: string, c: char, end: int, i: int)
    requires 0 <= i < end <= |s| && s[i] == c
    requires forall j :: i < j < end ==> s[j] != c
    ensures LastIndexBelow(s, c, end) == i
    decreases end
  {
    if i < end - 1 {
      LastIndexBelowAt(s, c, end - 1, i);
    }
  }

  /** `rfind` finds `c` at `i` when no later character is `c`. */
  lemma LastIndexAt(s: string, c: char, i: int)
    requires 0 <= i < |s| && s[i] == c
    requires forall j :: i < j < |s| ==> s[j] != c
    ensures LastIndexOf(s, c) == i
  {
    LastIndexBelowAt(s, c, |s|, i);
  }

  /** A plain file name whose last dot sits at `i`, neither first nor last, splits there into stem and suffix. */
  lemma SplitAtDot(n: string, i: int)
    requires '/' !in n && 0 < i < |n| - 1 && n[i] == '.'
    requires forall j :: i < j < |n| ==> n[j] != '.'
    ensures Name(n) == n && Stem(n) == n[..i] && Suffix(n) == n[i..]
  {
    NameOfFileName(n);
    LastIndexAt(n, '.', i);
  }

  /** A file name `STEM.EXT` has the stem `STEM` and the suffix `.EXT`. */
  lemma DottedName(stem: string, ext: string)
    requires stem != "" && '/' !in stem
    requires ext != "" && '/' !in ext && '.' !in ext
    ensures Stem(stem + "." + ext) == stem
    ensures Suffix(stem + "." + ext) == "." + ext
  {
    var n := stem + "." + ext;
    var i := |stem|;
    assert n[..i] == stem && n[i..] == "." + ext;
    assert Stem(n) == n[..i] && Suffix(n) == n[i..] by {
      assert forall j :: i < j < |n| ==> n[j] == ext[j - i - 1];
      assert '/' !in n;
      SplitAtDot(n, i);
    }
  }

  /** `libBASE.EXT` is filed under `BASE` and carries the extension `.EXT`. */
  lemma StripLibraryFile(base: string, ext: string)
    requires base != "" && '/' !in base && '.' !in base
    requires ext != "" && '/' !in ext && '.' !in ext
    ensures Suffix("lib" + base + "." + ext) == "." + ext
    ensures StripLibraryName("lib" + base + "." + ext) == base
  {
    var stem := "lib" + base;
    assert '/' !in stem by {
      assert forall j :: 0 <= j < |stem| ==> stem[j] == if j < 3 then "lib"[j] else base[j - 3];
    }
    DottedName(stem, ext);
    assert "lib" <= stem;
    assert stem[3..] == base;
  }

  /** A bare name without dots or a `lib` prefix is its own key (`foo` is filed as `foo`). */
  lemma StripBareName(base: string)
    requires base != "" && '/' !in base && '.' !in base && !("lib" <= base)
    ensures Suffix(base) == ""
    ensures StripLibraryName(base) == base
  {
    NameOfFileName(base);
    assert forall j :: 0 <= j < |base| ==> base[j] != '.';
  }

  /** The two examples of the catalog: `libbar.so` is filed as `bar`, `foo` as `foo`. */
  lemma StripExamples()
    ensures StripLibraryName("libbar.so") == "bar"
    ensures StripLibraryName("foo") == "foo"
  {
    BarLetters();
    StripLibraryFile("bar", "so");
    FooLetters();
    StripBareName("foo");
  }

  lemma BarLetters()
    ensures "lib" + "bar" + "." + "so" == "libbar.so"
    ensures '/' !in "bar" && '.' !in "bar" && '/' !in "so" && '.' !in "so"
  {
  }

  lemma FooLetters()
    ensures "foo" != "" && "foo" != "." && '/' !in "foo" && '.' !in "foo"
    ensures !("lib" <= "foo")
  {
    assert "foo"[0] != "lib"[0];
  }

  /** Two dotted file names differ in extension exactly when their extensions differ; a bare name never does. */
  lemma DifferentExtensionOfFiles(stem: string, ext1: string, ext2: string, bare: string, other: string)
    requires stem != "" && '/' !in stem
    requires ext1 != "" && '/' !in ext1 && '.' !in ext1
    requires ext2 != "" && '/' !in ext2 && '.' !in ext2
    requires bare != "" && '/' !in bare && '.' !in bare
    ensures DifferentExtension(stem + "." + ext1, stem + "." + ext2) <==> ext1 != ext2
    ensures !DifferentExtension(bare, other)
  {
    DottedName(stem, ext1);
    DottedName(stem, ext2);
    assert "." + ext1 == "." + ext2 ==> ext1 == ext2 by {
      if "." + ext1 == "." + ext2 {
        assert ext1 == ("." + ext1)[1..];
      }
    }
    NameOfFileName(bare);
    assert forall j :: 0 <= j < |bare| ==> bare[j] != '.';
  }

  /** Filing ignores the directory: `dir/n` is filed where `n` is. */
  lemma StripIgnoresDirectory(dir: string, n: string)
    requires n != "" && n != "." && '/' !in n
    ensures StripLibraryName(dir + "/" + n) == StripLibraryName(n)
    ensures Suffix(dir + "/" + n) == Suffix(n)
  {
    NameDropsDirectory(dir, n);
    NameOfFileName(n);
  }
}

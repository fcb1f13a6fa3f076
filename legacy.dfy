/**
  The older standalone libshelper.py: its in-memory cache of symbol
  definers, pending references and library dependencies, the lookup of a
  library by a short name, the reading of an `nm` listing, the cache update
  that follows the analysis of one library, and the trimming of a list of
  libraries by their direct dependencies.
 */
module Legacy {
  import opened Options
  import opened Text
  import opened Paths
  import Scraping
  import LibsHelper

  // ---------------------------------------------------------------------
  // The cache tables
  // ---------------------------------------------------------------------

  /** The three tables of `Cache`: symbol to definer, symbol to pending dependents, library to dependencies. */
  datatype Tables = Tables(defined: map<string, string>, undefined: map<string, set<string>>,
                           dependencies: map<string, set<string>>)

  /** `dict.get(key, set())` on a table of sets. */
  function SetOf(table: map<string, set<string>>, key: string): set<string>
  {
    if key in table then table[key] else {}
  }

  /** The table after `add_library(library)`: the entry is there, nothing else changes. */
  function WithLibrary(deps: map<string, set<string>>, library: string): (r: map<string, set<string>>)
    ensures r.Keys == deps.Keys + {library}
    ensures forall k :: k in deps ==> r[k] == deps[k]
    ensures library !in deps ==> r[library] == {}
  {
    if library in deps then deps else deps[library := {}]
  }

  /** The table after `add_dependency(src, tgt)`. */
  function Linked(deps: map<string, set<string>>, src: string, tgt: string): (r: map<string, set<string>>)
    ensures r.Keys == deps.Keys + (if src != tgt then {src} else {})
    ensures forall k :: SetOf(r, k) == SetOf(deps, k) + (if k == src && src != tgt then {tgt} else {})
  {
    if src == tgt then deps else deps[src := SetOf(deps, src) + {tgt}]
  }

  /** `setdefault(key, set()).add(x)` on a table of sets. */
  function Pended(table: map<string, set<string>>, key: string, x: string): (r: map<string, set<string>>)
    ensures r.Keys == table.Keys + {key}
    ensures forall k :: SetOf(r, k) == SetOf(table, k) + (if k == key then {x} else {})
  {
    table[key := SetOf(table, key) + {x}]
  }

  class Cache {
    var definedSymbols: map<string, string>
    var undefinedSymbols: map<string, set<string>>
    var dependencies: map<string, set<string>>

    /** A cache with empty tables (reading the cache file is not part of the model). */
    constructor ()
      ensures definedSymbols == map[] && undefinedSymbols == map[] && dependencies == map[]
    {
      definedSymbols, undefinedSymbols, dependencies := map[], map[], map[];
    }

    function State(): Tables
      reads this
    {
      Tables(definedSymbols, undefinedSymbols, dependencies)
    }

    /** `is_library`: the name has an entry in the dependency table. */
    predicate IsLibrary(library: string)
      reads this
      ensures IsLibrary(library) <==> library in State().dependencies
    {
      library in dependencies
    }

    /** `find_library`: the first candidate for `name` the cache knows, if any. */
    method FindLibrary(name: string) returns (r: Option<string>)
      ensures r == FirstKnown(Candidates(name), dependencies.Keys)
    {
      var candidates := Candidates(name);
      for i := 0 to |candidates|
        invariant FirstKnown(candidates[i..], dependencies.Keys) == FirstKnown(candidates, dependencies.Keys)
      {
        assert candidates[i..][1..] == candidates[i + 1..];
        if IsLibrary(candidates[i]) {
          return Some(candidates[i]);
        }
      }
      return None;
    }

    /** `add_library`: the library gets an entry with no dependencies unless it has one. */
    method AddLibrary(library: string)
      modifies this
      ensures dependencies == WithLibrary(old(dependencies), library)
      ensures definedSymbols == old(definedSymbols) && undefinedSymbols == old(undefinedSymbols)
    {
      if library !in dependencies {
        dependencies := dependencies[library := {}];
      }
    }

    /** `add_dependency`: records `tgt` among the dependencies of `src`, never a library on itself. */
    method AddDependency(src: string, tgt: string)
      modifies this
      ensures dependencies == Linked(old(dependencies), src, tgt)
      ensures definedSymbols == old(definedSymbols) && undefinedSymbols == old(undefinedSymbols)
    {
      if src != tgt {
        dependencies := dependencies[src := SetOf(dependencies, src) + {tgt}];
      }
    }

    /** `get_dependencies(library)`: the direct dependencies, none for an unknown name. */
    function GetDependencies(library: string): (r: set<string>)
      reads this
      ensures library in dependencies ==> r == dependencies[library]
      ensures library !in dependencies ==> r == {}
    {
      SetOf(dependencies, library)
    }
  }

  // ---------------------------------------------------------------------
  // find_library, find_lib_with_name
  // ---------------------------------------------------------------------

  /** The name with `lib` in front, unless it already starts with it. */
  function LibName(name: string): (r: string)
    ensures "lib" <= r
    ensures "lib" <= name ==> r == name
    ensures !("lib" <= name) ==> r[3..] == name
  {
    if "lib" <= name then name else "lib" + name
  }

  /** The names tried, in order: the name itself if it has a suffix, else the static and then the shared archive. */
  function Candidates(name: string): (r: seq<string>)
  {
    var n := LibName(name);
    if Suffix(n) != "" then [n] else [n + ".a", n + ".so"]
  }

  /** The first of `candidates` in `known`. */
  function FirstKnown(candidates: seq<string>, known: set<string>): (r: Option<string>)
    ensures r.Some? <==> exists c :: c in candidates && c in known
    ensures r.Some? ==> exists i :: 0 <= i < |candidates| && candidates[i] == r.value && r.value in known &&
                                      forall j :: 0 <= j < i ==> candidates[j] !in known
  {
    if candidates == [] then None
    else if candidates[0] in known then Some(candidates[0])
    else
      var r := FirstKnown(candidates[1..], known);
      assert forall c :: c in candidates ==> c == candidates[0] || c in candidates[1..];
      if r.Some? then
        var i :| 0 <= i < |candidates[1..]| && candidates[1..][i] == r.value && r.value in known &&
                 forall j :: 0 <= j < i ==> candidates[1..][j] !in known;
        assert candidates[i + 1] == r.value;
        r
      else r
  }

  /** With no suffix, the static archive wins over the shared one when both are known. */
  lemma StaticFirst(name: string, known: set<string>)
    requires Suffix(LibName(name)) == "" && LibName(name) + ".a" in known
    ensures FirstKnown(Candidates(name), known) == Some(LibName(name) + ".a")
  {
  }

  /** With no suffix, the shared archive is found only when there is no static one. */
  lemma SharedSecond(name: string, known: set<string>)
    requires Suffix(LibName(name)) == ""
    ensures FirstKnown(Candidates(name), known) == Some(LibName(name) + ".so") <==>
            LibName(name) + ".a" !in known && LibName(name) + ".so" in known
  {
    var n := LibName(name);
    assert Candidates(name) == [n + ".a", n + ".so"];
    assert n + ".a" != n + ".so" by {
      assert (n + ".a")[|n| + 1] == 'a' && (n + ".so")[|n| + 1] == 's';
    }
  }

  /** `find_lib_with_name`: the library `find_library` finds, or the name as given. */
  method FindLibWithName(cache: Cache, name: string) returns (r: string)
    ensures FirstKnown(Candidates(name), cache.dependencies.Keys).Some? ==>
              r == FirstKnown(Candidates(name), cache.dependencies.Keys).value
    ensures FirstKnown(Candidates(name), cache.dependencies.Keys).None? ==> r == name
  {
    var candidates := Candidates(name);
    for i := 0 to |candidates|
      invariant FirstKnown(candidates[i..], cache.dependencies.Keys) == FirstKnown(candidates, cache.dependencies.Keys)
    {
      assert candidates[i..][1..] == candidates[i + 1..];
      if cache.IsLibrary(candidates[i]) {
        return candidates[i];
      }
    }
    return name;
  }

  // ---------------------------------------------------------------------
  // parse_nm_output
  // ---------------------------------------------------------------------

  /** Text, read-only and weak symbols are definitions here; undefined ones are references. */
  predicate Keeps(defining: bool, kind: char)
  {
    if defining then kind == 'T' || kind == 'R' || kind == 'W' else kind == 'U'
  }

  /** What one line adds to the definitions (or to the references): the symbol text, whole. */
  function Picked(line: string, defining: bool): seq<string>
  {
    match Scraping.ParseRecord(line)
    case Some(r) => if Keeps(defining, r.kind) then [r.symbol] else []
    case None => []
  }

  /** The symbols picked from `lines`, in line order. */
  function Listed(lines: seq<string>, defining: bool): seq<string>
  {
    if lines == [] then []
    else Listed(lines[..|lines| - 1], defining) + Picked(lines[|lines| - 1], defining)
  }

  /** A symbol is listed exactly when some line is a record of a kept kind with that symbol. */
  lemma {:induction false} ListedMembers(lines: seq<string>, defining: bool, x: string)
    ensures x in Listed(lines, defining) <==>
            exists i :: 0 <= i < |lines| && Scraping.ParseRecord(lines[i]).Some? &&
                        Keeps(defining, Scraping.ParseRecord(lines[i]).value.kind) &&
                        Scraping.ParseRecord(lines[i]).value.symbol == x
  {
    if lines != [] {
      var n := |lines| - 1;
      ListedMembers(lines[..n], defining, x);
      assert forall i :: 0 <= i < n ==> lines[..n][i] == lines[i];
    }
  }

  /**
    Where the listing has no bss records and no versioned symbols, the
    definitions and references are those the packaged reader collects.
   */
  lemma {:induction false} ListedAsPackaged(lines: seq<string>, defining: bool)
    requires forall i :: 0 <= i < |lines| && Scraping.ParseRecord(lines[i]).Some? ==>
               Scraping.ParseRecord(lines[i]).value.kind != 'B' && '@' !in Scraping.ParseRecord(lines[i]).value.symbol
    ensures Listed(lines, defining) == Scraping.Collected(lines, defining)
  {
    if lines != [] {
      var n := |lines| - 1;
      assert forall i :: 0 <= i < n ==> lines[..n][i] == lines[i];
      ListedAsPackaged(lines[..n], defining);
      var rec := Scraping.ParseRecord(lines[n]);
      if rec.Some? {
        Scraping.UnversionedPlain(rec.value.symbol);
      }
    }
  }

  /** `parse_nm_output`: the definitions and the references of the listing, in line order. */
  method ParseNmOutput(output: string) returns (defined: seq<string>, undefined: seq<string>)
    ensures defined == Listed(SplitLines(output), true)
    ensures undefined == Listed(SplitLines(output), false)
  {
    var lines := SplitLines(output);
    defined, undefined := [], [];
    for i := 0 to |lines|
      invariant defined == Listed(lines[..i], true)
      invariant undefined == Listed(lines[..i], false)
    {
      var rec := Scraping.ParseRecord(lines[i]);
      if rec.Some? {
        var stype, symbol := rec.value.kind, rec.value.symbol;
        if stype == 'T' || stype == 'R' || stype == 'W' {
          defined := defined + [symbol];
        } else if stype == 'U' {
          undefined := undefined + [symbol];
        }
      }
      assert lines[..i + 1][..i] == lines[..i];
    }
    assert lines[..|lines|] == lines;
  }

  // ---------------------------------------------------------------------
  // The cache update of analyze_library
  // ---------------------------------------------------------------------

  /** The table after `add_dependency(dl, library)` for every `dl` of `dependents`, in any order. */
  function LinkedFrom(deps: map<string, set<string>>, dependents: set<string>, library: string): (r: map<string, set<string>>)
    ensures r.Keys == deps.Keys + (dependents - {library})
  {
    map k | k in deps.Keys + (dependents - {library}) ::
      SetOf(deps, k) + (if k in dependents && k != library then {library} else {})
  }

  /** Each dependent other than `library` itself gains `library`; every other entry is as it was. */
  lemma LinkedFromAt(deps: map<string, set<string>>, dependents: set<string>, library: string, k: string)
    ensures SetOf(LinkedFrom(deps, dependents, library), k) ==
            SetOf(deps, k) + (if k in dependents && k != library then {library} else {})
  {
  }

  /** Two tables of sets with the same keys and the same sets are one table. */
  lemma SameTable(a: map<string, set<string>>, b: map<string, set<string>>)
    requires a.Keys == b.Keys && forall k :: SetOf(a, k) == SetOf(b, k)
    ensures a == b
  {
    forall k | k in a
      ensures a[k] == b[k]
    {
      assert SetOf(a, k) == SetOf(b, k);
    }
  }

  lemma LinkedFromStep(deps: map<string, set<string>>, done: set<string>, dl: string, library: string)
    ensures Linked(LinkedFrom(deps, done, library), dl, library) == LinkedFrom(deps, done + {dl}, library)
  {
    var before := LinkedFrom(deps, done, library);
    var l, r := Linked(before, dl, library), LinkedFrom(deps, done + {dl}, library);
    assert l.Keys == r.Keys by {
      assert (done + {dl}) - {library} == (done - {library}) + (if dl != library then {dl} else {});
    }
    forall k
      ensures SetOf(l, k) == SetOf(r, k)
    {
      LinkedFromAt(deps, done, library, k);
      LinkedFromAt(deps, done + {dl}, library, k);
    }
    SameTable(l, r);
  }

  /** The `for dl in depending_libs` loop: every pending dependent gets an edge to `library`. */
  method LinkDependents(cache: Cache, dependents: set<string>, library: string)
    modifies cache
    ensures cache.dependencies == LinkedFrom(old(cache.dependencies), dependents, library)
    ensures cache.definedSymbols == old(cache.definedSymbols) && cache.undefinedSymbols == old(cache.undefinedSymbols)
  {
    var todo := dependents;
    ghost var done: set<string> := {};
    ghost var deps := cache.dependencies;
    SameTable(LinkedFrom(deps, done, library), deps);
    while todo != {}
      invariant todo + done == dependents && todo !! done
      invariant cache.dependencies == LinkedFrom(deps, done, library)
      invariant cache.definedSymbols == old(cache.definedSymbols) && cache.undefinedSymbols == old(cache.undefinedSymbols)
      decreases |todo|
    {
      var dl :| dl in todo;
      LinkedFromStep(deps, done, dl, library);
      cache.AddDependency(dl, library);
      LibsHelper.MoveOne(todo, done, dependents, dl);
      done := done + {dl};
      todo := todo - {dl};
    }
    assert done == dependents;
  }

  /**
    One turn of the `for symbol in defined` loop: `library` becomes the
    definer, and the libraries that were waiting for the symbol (if any)
    stop waiting and depend on it.
   */
  function Define(t: Tables, library: string, symbol: string): Tables
  {
    var waiting := SetOf(t.undefined, symbol);
    Tables(t.defined[symbol := library], t.undefined - {symbol},
           if waiting != {} then LinkedFrom(t.dependencies, waiting, library) else t.dependencies)
  }

  /** The `for symbol in defined` loop on the tables. */
  function DefineAll(t: Tables, library: string, symbols: seq<string>): Tables
    decreases |symbols|
  {
    if symbols == [] then t else DefineAll(Define(t, library, symbols[0]), library, symbols[1..])
  }

  /**
    One turn of the `for symbol in undefined` loop: a known, non-empty
    definer gets an edge from `library`; otherwise `library` waits for the symbol.
   */
  function Refer(t: Tables, library: string, symbol: string): Tables
  {
    if symbol in t.defined && t.defined[symbol] != "" then t.(dependencies := Linked(t.dependencies, library, t.defined[symbol]))
    else t.(undefined := Pended(t.undefined, symbol, library))
  }

  /** The `for symbol in undefined` loop on the tables. */
  function ReferAll(t: Tables, library: string, symbols: seq<string>): Tables
    decreases |symbols|
  {
    if symbols == [] then t else ReferAll(Refer(t, library, symbols[0]), library, symbols[1..])
  }

  /** The tables once `library`, with these definitions and references, is folded in. */
  function Analyzed(t: Tables, library: string, defined: seq<string>, undefined: seq<string>): Tables
  {
    ReferAll(DefineAll(t.(dependencies := WithLibrary(t.dependencies, library)), library, defined), library, undefined)
  }

  /**
    The cache update of `analyze_library` for the library `libname` whose
    listing gave `defined` and `undefined`.
   */
  method AnalyzeUpdate(cache: Cache, libname: string, defined: seq<string>, undefined: seq<string>)
    modifies cache
    ensures cache.State() == Analyzed(old(cache.State()), libname, defined, undefined)
  {
    cache.AddLibrary(libname);
    ghost var added := cache.State();
    for i := 0 to |defined|
      invariant DefineAll(cache.State(), libname, defined[i..]) == DefineAll(added, libname, defined)
    {
      ghost var before := cache.State();
      var symbol := defined[i];
      cache.definedSymbols := cache.definedSymbols[symbol := libname];
      if symbol in cache.undefinedSymbols {
        var dependingLibs := cache.undefinedSymbols[symbol];
        cache.undefinedSymbols := cache.undefinedSymbols - {symbol};
        if dependingLibs != {} {
          LinkDependents(cache, dependingLibs, libname);
        }
      } else {
        assert cache.undefinedSymbols - {symbol} == cache.undefinedSymbols;
      }
      assert cache.State() == Define(before, libname, symbol);
      assert defined[i..][1..] == defined[i + 1..];
    }
    ghost var definedAll := cache.State();
    for i := 0 to |undefined|
      invariant ReferAll(cache.State(), libname, undefined[i..]) == ReferAll(definedAll, libname, undefined)
    {
      ghost var before := cache.State();
      var symbol := undefined[i];
      var definer := if symbol in cache.definedSymbols then Some(cache.definedSymbols[symbol]) else None;
      if definer.Some? && definer.value != "" {
        cache.AddDependency(libname, definer.value);
      } else {
        cache.undefinedSymbols := cache.undefinedSymbols[symbol := SetOf(cache.undefinedSymbols, symbol) + {libname}];
      }
      assert cache.State() == Refer(before, libname, symbol);
      assert undefined[i..][1..] == undefined[i + 1..];
    }
  }

  /** The definitions loop makes `library` the definer of its symbols and leaves the other definers alone. */
  lemma {:induction false} DefineAllDefiners(t: Tables, library: string, symbols: seq<string>, k: string)
    ensures k in symbols ==> k in DefineAll(t, library, symbols).defined && DefineAll(t, library, symbols).defined[k] == library
    ensures k !in symbols ==> (k in DefineAll(t, library, symbols).defined <==> k in t.defined)
    ensures k !in symbols && k in t.defined ==> DefineAll(t, library, symbols).defined[k] == t.defined[k]
    decreases |symbols|
  {
    if symbols != [] {
      DefineAllDefiners(Define(t, library, symbols[0]), library, symbols[1..], k);
      assert k in symbols <==> k == symbols[0] || k in symbols[1..];
    }
  }

  /** The definitions loop stops every defined symbol waiting, and no other. */
  lemma {:induction false} DefineAllWaiting(t: Tables, library: string, symbols: seq<string>, k: string)
    ensures k in symbols ==> k !in DefineAll(t, library, symbols).undefined
    ensures k !in symbols ==> (k in DefineAll(t, library, symbols).undefined <==> k in t.undefined)
    ensures k !in symbols ==> SetOf(DefineAll(t, library, symbols).undefined, k) == SetOf(t.undefined, k)
    decreases |symbols|
  {
    if symbols != [] {
      DefineAllWaiting(Define(t, library, symbols[0]), library, symbols[1..], k);
      assert k in symbols <==> k == symbols[0] || k in symbols[1..];
    }
  }

  /** The definitions loop only adds edges, and only edges to `library`. */
  lemma {:induction false} DefineAllEdges(t: Tables, library: string, symbols: seq<string>, k: string)
    ensures t.dependencies.Keys <= DefineAll(t, library, symbols).dependencies.Keys
    ensures SetOf(t.dependencies, k) <= SetOf(DefineAll(t, library, symbols).dependencies, k) <= SetOf(t.dependencies, k) + {library}
    decreases |symbols|
  {
    if symbols != [] {
      var t1 := Define(t, library, symbols[0]);
      LinkedFromAt(t.dependencies, SetOf(t.undefined, symbols[0]), library, k);
      DefineAllEdges(t1, library, symbols[1..], k);
    }
  }

  /** Each library that was waiting for a symbol the library defines comes to depend on it. */
  lemma {:induction false} DefineAllLinksWaiting(t: Tables, library: string, symbols: seq<string>, s: string, dl: string)
    requires s in symbols && dl in SetOf(t.undefined, s) && dl != library
    ensures library in SetOf(DefineAll(t, library, symbols).dependencies, dl)
    decreases |symbols|
  {
    var t1 := Define(t, library, symbols[0]);
    if symbols[0] == s {
      LinkedFromAt(t.dependencies, SetOf(t.undefined, s), library, dl);
      DefineAllEdges(t1, library, symbols[1..], dl);
    } else {
      assert SetOf(t1.undefined, s) == SetOf(t.undefined, s);
      DefineAllLinksWaiting(t1, library, symbols[1..], s, dl);
    }
  }

  /** The references loop changes no definer. */
  lemma {:induction false} ReferAllDefiners(t: Tables, library: string, symbols: seq<string>)
    ensures ReferAll(t, library, symbols).defined == t.defined
    decreases |symbols|
  {
    if symbols != [] {
      ReferAllDefiners(Refer(t, library, symbols[0]), library, symbols[1..]);
    }
  }

  /** The references loop only adds edges, and only edges from `library`. */
  lemma {:induction false} ReferAllEdges(t: Tables, library: string, symbols: seq<string>, k: string)
    ensures t.dependencies.Keys <= ReferAll(t, library, symbols).dependencies.Keys
    ensures SetOf(t.dependencies, k) <= SetOf(ReferAll(t, library, symbols).dependencies, k)
    ensures k != library ==> SetOf(ReferAll(t, library, symbols).dependencies, k) == SetOf(t.dependencies, k)
    decreases |symbols|
  {
    if symbols != [] {
      ReferAllEdges(Refer(t, library, symbols[0]), library, symbols[1..], k);
    }
  }

  /**
    The references loop only adds `library` to the waiting lists of its
    references, and never of one with a known, non-empty definer.
   */
  lemma {:induction false} ReferAllWaiting(t: Tables, library: string, symbols: seq<string>, k: string)
    ensures SetOf(t.undefined, k) <= SetOf(ReferAll(t, library, symbols).undefined, k)
    ensures k !in symbols ==> SetOf(ReferAll(t, library, symbols).undefined, k) == SetOf(t.undefined, k)
    ensures k in t.defined && t.defined[k] != "" ==>
              (k in ReferAll(t, library, symbols).undefined <==> k in t.undefined)
    decreases |symbols|
  {
    if symbols != [] {
      ReferAllWaiting(Refer(t, library, symbols[0]), library, symbols[1..], k);
      assert k in symbols <==> k == symbols[0] || k in symbols[1..];
    }
  }

  /** Each reference is linked to its known definer, or `library` waits for it. */
  lemma {:induction false} ReferAllLinks(t: Tables, library: string, symbols: seq<string>, u: string)
    requires u in symbols
    ensures u in t.defined && t.defined[u] != "" && t.defined[u] != library ==>
              t.defined[u] in SetOf(ReferAll(t, library, symbols).dependencies, library)
    ensures !(u in t.defined && t.defined[u] != "") ==> library in SetOf(ReferAll(t, library, symbols).undefined, u)
    decreases |symbols|
  {
    var t1 := Refer(t, library, symbols[0]);
    if symbols[0] == u {
      ReferAllEdges(t1, library, symbols[1..], library);
      ReferAllWaiting(t1, library, symbols[1..], u);
    } else {
      ReferAllLinks(t1, library, symbols[1..], u);
    }
  }

  /** After the update the library has an entry in the dependency table. */
  lemma AnalyzedRecordsLibrary(t: Tables, library: string, defined: seq<string>, undefined: seq<string>)
    ensures library in Analyzed(t, library, defined, undefined).dependencies
  {
    var t0 := t.(dependencies := WithLibrary(t.dependencies, library));
    DefineAllEdges(t0, library, defined, library);
    ReferAllEdges(DefineAll(t0, library, defined), library, undefined, library);
  }

  /** The library defines exactly its defined symbols anew; every other definer stays. */
  lemma AnalyzedDefiners(t: Tables, library: string, defined: seq<string>, undefined: seq<string>, k: string)
    ensures k in defined ==> k in Analyzed(t, library, defined, undefined).defined &&
                             Analyzed(t, library, defined, undefined).defined[k] == library
    ensures k !in defined ==> (k in Analyzed(t, library, defined, undefined).defined <==> k in t.defined)
    ensures k !in defined && k in t.defined ==> Analyzed(t, library, defined, undefined).defined[k] == t.defined[k]
  {
    var t0 := t.(dependencies := WithLibrary(t.dependencies, library));
    DefineAllDefiners(t0, library, defined, k);
    ReferAllDefiners(DefineAll(t0, library, defined), library, undefined);
  }

  /** A library that was waiting for a symbol this library defines now depends on it. */
  lemma AnalyzedLinksWaiting(t: Tables, library: string, defined: seq<string>, undefined: seq<string>, s: string, dl: string)
    requires s in defined && dl in SetOf(t.undefined, s) && dl != library
    ensures library in SetOf(Analyzed(t, library, defined, undefined).dependencies, dl)
  {
    var t0 := t.(dependencies := WithLibrary(t.dependencies, library));
    DefineAllLinksWaiting(t0, library, defined, s, dl);
    ReferAllEdges(DefineAll(t0, library, defined), library, undefined, dl);
  }

  /** Nobody waits any more for a symbol the library (with a non-empty name) defines. */
  lemma AnalyzedResolves(t: Tables, library: string, defined: seq<string>, undefined: seq<string>, s: string)
    requires s in defined && library != ""
    ensures s !in Analyzed(t, library, defined, undefined).undefined
  {
    var t0 := t.(dependencies := WithLibrary(t.dependencies, library));
    DefineAllDefiners(t0, library, defined, s);
    DefineAllWaiting(t0, library, defined, s);
    ReferAllWaiting(DefineAll(t0, library, defined), library, undefined, s);
  }

  /**
    Each undefined symbol of the library: with a known, non-empty definer
    (after the library's own definitions) the library depends on it, unless
    it is the library itself; otherwise the library waits for the symbol.
   */
  lemma AnalyzedReferences(t: Tables, library: string, defined: seq<string>, undefined: seq<string>, u: string)
    requires u in undefined
    ensures var a := Analyzed(t, library, defined, undefined);
            u in a.defined && a.defined[u] != "" && a.defined[u] != library ==> a.defined[u] in SetOf(a.dependencies, library)
    ensures var a := Analyzed(t, library, defined, undefined);
            !(u in a.defined && a.defined[u] != "") ==> library in SetOf(a.undefined, u)
  {
    var t0 := t.(dependencies := WithLibrary(t.dependencies, library));
    var t1 := DefineAll(t0, library, defined);
    ReferAllDefiners(t1, library, undefined);
    ReferAllLinks(t1, library, undefined, u);
  }

  /** The update adds edges and waiting entries only from or to the library. */
  lemma AnalyzedOnlyAdds(t: Tables, library: string, defined: seq<string>, undefined: seq<string>, k: string)
    requires k != library
    ensures SetOf(t.dependencies, k) <= SetOf(Analyzed(t, library, defined, undefined).dependencies, k) <=
            SetOf(t.dependencies, k) + {library}
  {
    var t0 := t.(dependencies := WithLibrary(t.dependencies, library));
    assert SetOf(t0.dependencies, k) == SetOf(t.dependencies, k);
    DefineAllEdges(t0, library, defined, k);
    ReferAllEdges(DefineAll(t0, library, defined), library, undefined, k);
  }

  // ---------------------------------------------------------------------
  // minimize_dependencies_list
  // ---------------------------------------------------------------------

  /** What `get_dependencies` gives each name: its direct dependencies, none when unknown. */
  function DirectNeeds(deps: map<string, set<string>>): string -> set<string>
  {
    name => SetOf(deps, name)
  }

  /** The list holds every name at least as often as `m` asks to remove it. */
  ghost predicate Fits(m: multiset<string>, libs: seq<string>)
  {
    forall x :: m[x] <= multiset(libs)[x]
  }

  lemma FitsSmaller(m: multiset<string>, m': multiset<string>, libs: seq<string>)
    requires m <= m' && Fits(m', libs)
    ensures Fits(m, libs)
  {
    forall x
      ensures m[x] <= multiset(libs)[x]
    {
      assert m[x] <= m'[x];
    }
  }

  /** What the first `i` listed libraries ask for is part of what all of them ask for. */
  lemma {:induction false} RequestedPrefix(need: string -> set<string>, libs: seq<string>, i: nat)
    requires i <= |libs|
    ensures LibsHelper.Requested(need, libs[..i]) <= LibsHelper.Requested(need, libs)
    decreases |libs| - i
  {
    if i < |libs| {
      RequestedPrefix(need, libs, i + 1);
      LibsHelper.RequestedStep(need, libs, i);
    } else {
      assert libs[..i] == libs;
    }
  }

  /**
    The `for d in deps` loop as written: `list.remove` raises `ValueError`
    for a dependency no longer in the list, which the `except KeyError`
    does not catch; `None` stands for that failure.
   */
  method RemoveEach(result: seq<string>, deps: set<string>, ghost libs: seq<string>, ghost m: multiset<string>)
    returns (r: Option<seq<string>>)
    requires result == LibsHelper.Drop(libs, m) && Fits(m, libs)
    ensures r.None? <==> !Fits(m + multiset(deps), libs)
    ensures r.Some? ==> r.value == LibsHelper.Drop(libs, m + multiset(deps))
  {
    var current := result;
    var todo := deps;
    ghost var done: set<string> := {};
    assert m + multiset(done) == m;
    while todo != {}
      invariant todo + done == deps && todo !! done
      invariant current == LibsHelper.Drop(libs, m + multiset(done)) && Fits(m + multiset(done), libs)
      decreases |todo|
    {
      var d :| d in todo;
      LibsHelper.DropMember(libs, m + multiset(done), d);
      LibsHelper.MultisetAdd(m, done, d);
      if d !in current {
        assert m + multiset(done + {d}) <= m + multiset(deps);
        assert (m + multiset(done + {d}))[d] > multiset(libs)[d];
        return None;
      }
      LibsHelper.DropRemoveFirst(libs, m + multiset(done), d);
      current := LibsHelper.RemoveFirst(current, d);
      LibsHelper.MoveOne(todo, done, deps, d);
      done := done + {d};
      todo := todo - {d};
    }
    assert done == deps;
    r := Some(current);
  }

  /**
    `minimize_dependencies_list` as written: it fails exactly when some name
    is a direct dependency of more listed libraries than the list holds it;
    otherwise one occurrence per request goes, as in the corrected version.
   */
  method MinimizeAsWritten(cache: Cache, libs: seq<string>) returns (r: Option<seq<string>>)
    ensures r.None? <==> !Fits(LibsHelper.Requested(DirectNeeds(cache.dependencies), libs), libs)
    ensures r.Some? ==> r.value == LibsHelper.Drop(libs, LibsHelper.Requested(DirectNeeds(cache.dependencies), libs))
  {
    ghost var need := DirectNeeds(cache.dependencies);
    var result := libs;
    LibsHelper.DropNone(libs);
    assert Fits(multiset{}, libs);
    for i := 0 to |libs|
      invariant result == LibsHelper.Drop(libs, LibsHelper.Requested(need, libs[..i]))
      invariant Fits(LibsHelper.Requested(need, libs[..i]), libs)
    {
      var deps := cache.GetDependencies(libs[i]);
      assert deps == need(libs[i]);
      LibsHelper.RequestedStep(need, libs, i);
      var next := RemoveEach(result, deps, libs, LibsHelper.Requested(need, libs[..i]));
      if next.None? {
        RequestedPrefix(need, libs, i + 1);
        if Fits(LibsHelper.Requested(need, libs), libs) {
          FitsSmaller(LibsHelper.Requested(need, libs[..i + 1]), LibsHelper.Requested(need, libs), libs);
        }
        return None;
      }
      result := next.value;
    }
    assert libs[..|libs|] == libs;
    r := Some(result);
  }

  /** A listed library whose dependency is not listed makes the function as written fail. */
  lemma UnlistedDependencyFails()
    ensures !Fits(LibsHelper.Requested(DirectNeeds(map["liba" := {"libb"}]), ["liba"]), ["liba"])
  {
    var need := DirectNeeds(map["liba" := {"libb"}]);
    assert need("liba") == {"libb"};
    assert LibsHelper.Requested(need, ["liba"]) == multiset{"libb"} by {
      assert ["liba"][..0] == [];
    }
    assert multiset(["liba"])["libb"] == 0;
  }

  /**
    `minimize_dependencies_list` with the missing-entry case ignored, as the
    packaged version does: the list without, for each listed library, one
    occurrence of each of its direct dependencies while any is left.
   */
  method MinimizeDependenciesList(cache: Cache, libs: seq<string>) returns (r: seq<string>)
    ensures r == LibsHelper.Drop(libs, LibsHelper.Requested(DirectNeeds(cache.dependencies), libs))
  {
    ghost var need := DirectNeeds(cache.dependencies);
    r := libs;
    LibsHelper.DropNone(libs);
    for i := 0 to |libs|
      invariant r == LibsHelper.Drop(libs, LibsHelper.Requested(need, libs[..i]))
    {
      var deps := cache.GetDependencies(libs[i]);
      assert deps == need(libs[i]);
      LibsHelper.RequestedStep(need, libs, i);
      r := LibsHelper.RemoveDependencies(r, deps, libs, LibsHelper.Requested(need, libs[..i]));
    }
    assert libs[..|libs|] == libs;
  }
}

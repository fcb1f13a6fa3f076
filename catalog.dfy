/**
  The library catalog of data.py: libraries filed under their stripped name,
  the symbol tables that drive dependency discovery (which file defines a
  symbol, which files still wait for an undefined one), packages and
  components, and the queries over them.
 */
module Catalog {
  import opened Options
  import opened Text
  import opened Paths
  import opened Collections
  import opened Reach

  /** A catalogued library: its key, its file name, the system flag and the files it directly needs. */
  datatype Library = Library(name: string, filename: string, system: bool, dependencies: set<string>)

  /** `Library(filename, system)`: filed under the stripped name, with no dependency yet. */
  function NewLibrary(filename: string, system: bool): (lib: Library)
    ensures lib.name == StripLibraryName(filename) && lib.filename == filename
    ensures lib.system == system && lib.dependencies == {}
  {
    Library(StripLibraryName(filename), filename, system, {})
  }

  /**
    `get_library` on a library table: the entry filed under the stripped name,
    unless the supplied name carries an extension other than the stored file's.
   */
  function Lookup(libraries: map<string, Library>, library: string): (r: Option<Library>)
    ensures r.Some? ==> StripLibraryName(library) in libraries && r.value == libraries[StripLibraryName(library)]
    ensures r.Some? ==> Suffix(library) == "" || Suffix(library) == Suffix(r.value.filename)
    ensures r.None? ==> StripLibraryName(library) !in libraries ||
                        (Suffix(library) != "" && Suffix(library) != Suffix(libraries[StripLibraryName(library)].filename))
  {
    var key := StripLibraryName(library);
    if key in libraries && !DifferentExtension(library, libraries[key].filename) then Some(libraries[key]) else None
  }

  /** One step of the transitive walk from `item`: the dependencies of the library it names, or none. */
  function Expand(libraries: map<string, Library>, item: string): set<string>
  {
    match Lookup(libraries, item)
    case Some(lib) => lib.dependencies
    case None => {}
  }

  /** Every file any catalogued library needs: the universe the walks stay in. */
  function AllDependencies(libraries: map<string, Library>): (u: set<string>)
    ensures forall x :: Expand(libraries, x) <= u
  {
    set k, d | k in libraries && d in libraries[k].dependencies :: d
  }

  /** The needs relation of a library table, as `Reach` walks it. */
  function Needs(libraries: map<string, Library>): string -> set<string>
  {
    x => Expand(libraries, x)
  }

  /** The definition table after the file `filename` is forgotten. */
  function WithoutDefiner(defined: map<string, string>, filename: string): (d: map<string, string>)
  {
    map k | k in defined && defined[k] != filename :: defined[k]
  }

  /** The pending table after the file `filename` is forgotten: sets it alone made non-empty are dropped. */
  function WithoutDependent(undefined: map<string, set<string>>, filename: string): (u: map<string, set<string>>)
  {
    map k | k in undefined && undefined[k] != {filename} :: undefined[k] - {filename}
  }

  /** After `remove_library`, no symbol is defined by the forgotten file and all others keep their definer. */
  lemma WithoutDefinerSpec(defined: map<string, string>, filename: string)
    ensures forall k :: k in WithoutDefiner(defined, filename) ==> WithoutDefiner(defined, filename)[k] != filename
    ensures forall k :: k in defined && defined[k] != filename ==>
                k in WithoutDefiner(defined, filename) && WithoutDefiner(defined, filename)[k] == defined[k]
  {
  }

  /**
    After `remove_library`, the forgotten file waits for no symbol, every other
    waiting file still waits, and the only sets removed are those that became empty.
   */
  lemma WithoutDependentSpec(undefined: map<string, set<string>>, filename: string)
    ensures forall k :: k in WithoutDependent(undefined, filename) ==> filename !in WithoutDependent(undefined, filename)[k]
    ensures forall k, f :: k in undefined && f in undefined[k] && f != filename ==>
                k in WithoutDependent(undefined, filename) && f in WithoutDependent(undefined, filename)[k]
    ensures forall k :: k in undefined && k !in WithoutDependent(undefined, filename) ==> undefined[k] == {filename}
    ensures forall k :: k in WithoutDependent(undefined, filename) ==> WithoutDependent(undefined, filename)[k] != {} || undefined[k] == {}
  {
  }

  /** The keys a set of library names are filed under. */
  function Keys(libs: set<string>): set<string>
  {
    set l | l in libs :: StripLibraryName(l)
  }

  /** Every component with the keys of its members. */
  function ComponentKeys(components: map<string, set<string>>): (keys: map<string, set<string>>)
    ensures keys.Keys == components.Keys
  {
    map c | c in components :: Keys(components[c])
  }

  function MemberKeys(keys: map<string, set<string>>, component: string): set<string>
  {
    if component in keys then keys[component] else {}
  }

  /** Every key in `keys` filed under `c`. */
  function Filing(keys: set<string>, c: string): (m: map<string, string>)
    ensures m.Keys == keys && forall k :: k in m ==> m[k] == c
  {
    map k | k in keys :: c
  }

  /**
    What `__build_components_reverse_map` adds: every member key mapped to its
    component, components visited in `order` (the dictionary's insertion
    order), so a library listed by two components ends up with the later one.
   */
  function ReverseIndex(order: seq<string>, keys: map<string, set<string>>): (index: map<string, string>)
    ensures forall k :: k in index ==> index[k] in order && k in MemberKeys(keys, index[k])
  {
    if order == [] then map[]
    else
      var c := order[|order| - 1];
      var prev := ReverseIndex(order[..|order| - 1], keys);
      assert forall k :: k in prev ==> prev[k] in order;
      prev + Filing(MemberKeys(keys, c), c)
  }

  /** Appending a component to the order files its member keys under it, over what came before. */
  lemma ReverseIndexSnoc(order: seq<string>, keys: map<string, set<string>>, c: string)
    ensures ReverseIndex(order + [c], keys) == ReverseIndex(order, keys) + Filing(MemberKeys(keys, c), c)
  {
    assert (order + [c])[..|order|] == order;
  }

  /**
    The reverse index `get_library_component` consults: built from the
    components when the one held is empty and there are components,
    otherwise the one held.
   */
  function Loaded(components: map<string, set<string>>, order: seq<string>, index: map<string, string>): map<string, string>
  {
    if |components| > 0 && |index| == 0 then ReverseIndex(order, ComponentKeys(components)) else index
  }

  /** Once loaded, the index stays as it is: a second lookup does not rebuild it. */
  lemma LoadedOnce(components: map<string, set<string>>, order: seq<string>, held: map<string, string>, index: map<string, string>)
    requires index == Loaded(components, order, held) || index == Loaded(components, order, Loaded(components, order, held))
    ensures index == Loaded(components, order, held)
  {
  }

  /** The component the reverse index `index` files `lib` under, by its key. */
  function ComponentOf(index: map<string, string>, lib: string): Option<string>
  {
    var key := StripLibraryName(lib);
    if key in index then Some(index[key]) else None
  }

  lemma UnionWithEmpty(empty: map<string, string>, m: map<string, string>, index: map<string, string>)
    requires |empty| == 0 && m == empty + index
    ensures m == index
  {
    assert empty.Keys == {};
  }

  lemma MapUnionAssociates(a: map<string, string>, b: map<string, string>, c: map<string, string>)
    ensures (a + b) + c == a + (b + c)
  {
  }

  /**
    A member key of the component at position `i` of the order is indexed, and
    it is indexed to that component when no later component lists it.
   */
  lemma {:induction false} ReverseIndexLastWins(order: seq<string>, keys: map<string, set<string>>, i: int, k: string)
    requires 0 <= i < |order| && k in MemberKeys(keys, order[i])
    ensures k in ReverseIndex(order, keys)
    ensures (forall j :: i < j < |order| ==> k !in MemberKeys(keys, order[j])) ==>
              ReverseIndex(order, keys)[k] == order[i]
  {
    var n := |order| - 1;
    if i < n {
      var init := order[..n];
      assert init[i] == order[i];
      ReverseIndexLastWins(init, keys, i, k);
      if forall j :: i < j < |order| ==> k !in MemberKeys(keys, order[j]) {
        assert k !in MemberKeys(keys, order[n]);
        assert forall j :: i < j < |init| ==> init[j] == order[j];
      }
    }
  }

  /** `filter_system_libraries`: the names whose system flag equals `system`, in input order. */
  function FilterSystem(libraries: map<string, Library>, libs: seq<string>, system: bool): (r: seq<string>)
    ensures |r| <= |libs|
    ensures forall x :: x in r ==> x in libs && IsSystem(libraries, x) == system
    ensures forall x :: x in libs && IsSystem(libraries, x) == system ==> x in r
  {
    if libs == [] then []
    else
      var rest := FilterSystem(libraries, libs[1..], system);
      if IsSystem(libraries, libs[0]) == system then [libs[0]] + rest else rest
  }

  /** A name is a system library when it is catalogued (extension permitting) with the system flag set. */
  predicate IsSystem(libraries: map<string, Library>, name: string)
  {
    Lookup(libraries, name).Some? && Lookup(libraries, name).value.system
  }

  /**
    The filter keeps the input order: filtering a concatenation is filtering
    each part, so every kept name stays where the list had it.
   */
  lemma {:induction false} FilterSystemAppend(libraries: map<string, Library>, a: seq<string>, b: seq<string>, system: bool)
    ensures FilterSystem(libraries, a + b, system) == FilterSystem(libraries, a, system) + FilterSystem(libraries, b, system)
    decreases |a|
  {
    if a != [] {
      AppendTail(a, b);
      FilterSystemCons(libraries, a + b, system);
      FilterSystemCons(libraries, a, system);
      FilterSystemAppend(libraries, a[1..], b, system);
    } else {
      assert a + b == b;
    }
  }

  /** The filter on a non-empty list: its head, if kept, and then the filtered tail. */
  lemma FilterSystemCons(libraries: map<string, Library>, libs: seq<string>, system: bool)
    requires libs != []
    ensures FilterSystem(libraries, libs, system)
      == (if IsSystem(libraries, libs[0]) == system then [libs[0]] else []) + FilterSystem(libraries, libs[1..], system)
  {
  }

  /** The head and the tail of a concatenation with a non-empty front. */
  lemma AppendTail<T>(a: seq<T>, b: seq<T>)
    requires a != []
    ensures (a + b)[0] == a[0] && (a + b)[1..] == a[1..] + b
  {
  }

  /** The two filters split a list: every name lands in exactly one of them, nothing is lost or duplicated. */
  lemma {:induction false} FilterSystemPartition(libraries: map<string, Library>, libs: seq<string>)
    ensures multiset(FilterSystem(libraries, libs, true)) + multiset(FilterSystem(libraries, libs, false)) == multiset(libs)
  {
    if libs != [] {
      var t := FilterSystem(libraries, libs[1..], true);
      var f := FilterSystem(libraries, libs[1..], false);
      FilterSystemPartition(libraries, libs[1..]);
      assert libs == [libs[0]] + libs[1..];
      assert multiset(libs) == multiset{libs[0]} + multiset(libs[1..]);
      if IsSystem(libraries, libs[0]) {
        assert FilterSystem(libraries, libs, true) == [libs[0]] + t;
        assert FilterSystem(libraries, libs, false) == f;
        assert multiset([libs[0]] + t) == multiset{libs[0]} + multiset(t);
      } else {
        assert FilterSystem(libraries, libs, true) == t;
        assert FilterSystem(libraries, libs, false) == [libs[0]] + f;
        assert multiset([libs[0]] + f) == multiset{libs[0]} + multiset(f);
      }
    }
  }

  /** A library just filed is found again under the name it was filed with. */
  lemma LookupAfterAdd(libraries: map<string, Library>, filename: string, system: bool)
    ensures Lookup(libraries[StripLibraryName(filename) := NewLibrary(filename, system)], filename) == Some(NewLibrary(filename, system))
  {
  }

  /** Filing a library leaves every other key's answer as it was. */
  lemma LookupOtherAfterAdd(libraries: map<string, Library>, filename: string, system: bool, other: string)
    requires StripLibraryName(other) != StripLibraryName(filename)
    ensures Lookup(libraries[StripLibraryName(filename) := NewLibrary(filename, system)], other) == Lookup(libraries, other)
  {
  }

  /** A bare key (no directory, no extension, no `lib` prefix) finds what is filed under it. */
  lemma LookupBareKey(libraries: map<string, Library>, base: string)
    requires base != "" && '/' !in base && '.' !in base && !("lib" <= base)
    ensures Lookup(libraries, base) == if base in libraries then Some(libraries[base]) else None
  {
    StripBareName(base);
  }

  /** `libBASE.EXT` finds what is filed under `BASE`, provided the stored file also ends in `.EXT`. */
  lemma LookupLibraryFile(libraries: map<string, Library>, base: string, ext: string)
    requires base != "" && '/' !in base && '.' !in base
    requires ext != "" && '/' !in ext && '.' !in ext
    ensures Lookup(libraries, "lib" + base + "." + ext) ==
              if base in libraries && Suffix(libraries[base].filename) == "." + ext then Some(libraries[base]) else None
  {
    StripLibraryFile(base, ext);
  }

  /** Every library is filed under its own name (which `NewLibrary` derives from the file name). */
  ghost predicate WellFiled(libraries: map<string, Library>)
  {
    forall k :: k in libraries ==> libraries[k].name == k
  }

  lemma WellFiledRemove(libraries: map<string, Library>, key: string)
    requires WellFiled(libraries)
    ensures WellFiled(libraries - {key})
  {
  }

  lemma WellFiledAdd(libraries: map<string, Library>, filename: string, system: bool)
    requires WellFiled(libraries)
    ensures WellFiled(libraries[StripLibraryName(filename) := NewLibrary(filename, system)])
  {
  }

  lemma WellFiledAddDependency(libraries: map<string, Library>, key: string, tgt: string)
    requires WellFiled(libraries) && key in libraries
    ensures WellFiled(libraries[key := libraries[key].(dependencies := libraries[key].dependencies + {tgt})])
  {
  }

  /** The library catalog: tables keyed by stripped name, file name or symbol. */
  class Cache {
    var libraries: map<string, Library>
    var definedSymbols: map<string, string>
    var undefinedSymbols: map<string, set<string>>
    var packages: map<string, set<string>>
    var components: map<string, set<string>>
    /** The insertion order of `components`, which Python dictionaries keep. */
    var componentOrder: seq<string>
    var libs2components: map<string, string>

    ghost predicate Valid()
      reads this
    {
      && WellFiled(libraries)
      && (forall c :: c in components <==> c in componentOrder)
      && (forall i, j :: 0 <= i < j < |componentOrder| ==> componentOrder[i] != componentOrder[j])
    }

    constructor ()
      ensures Valid()
      ensures libraries == map[] && definedSymbols == map[] && undefinedSymbols == map[]
      ensures packages == map[] && components == map[] && componentOrder == [] && libs2components == map[]
    {
      libraries, definedSymbols, undefinedSymbols := map[], map[], map[];
      packages, components, componentOrder, libs2components := map[], map[], [], map[];
    }

    /** `is_library`: a key test that, unlike `get_library`, ignores the extension. */
    predicate IsLibrary(library: string)
      reads this
      ensures Lookup(libraries, library).Some? ==> IsLibrary(library)
      ensures StripLibraryName(library) in libraries && !DifferentExtension(library, libraries[StripLibraryName(library)].filename) ==>
                Lookup(libraries, library).Some?
    {
      StripLibraryName(library) in libraries
    }

    /** `get_library`: the entry filed under the stripped name, unless the name's extension differs from the entry's. */
    function GetLibrary(library: string): (r: Option<Library>)
      reads this
      ensures r.Some? <==> StripLibraryName(library) in libraries && !DifferentExtension(library, libraries[StripLibraryName(library)].filename)
      ensures r.Some? ==> r.value == libraries[StripLibraryName(library)]
    {
      Lookup(libraries, library)
    }

    /** `find_library`: the stored file name of the library a name designates. */
    function FindLibrary(library: string): (r: Option<string>)
      reads this
      ensures r.Some? <==> Lookup(libraries, library).Some?
      ensures r.Some? ==> r.value == libraries[StripLibraryName(library)].filename
    {
      match Lookup(libraries, library)
      case Some(lib) => Some(lib.filename)
      case None => None
    }

    /** `add_library`: files a fresh entry (replacing any under the same key) and tags it with the package. */
    method AddLibrary(library: string, system: bool, package: Option<string>)
      requires Valid()
      modifies this`libraries, this`packages
      ensures Valid()
      ensures libraries == old(libraries)[StripLibraryName(library) := NewLibrary(library, system)]
      ensures package.Some? && package.value != "" ==>
                packages == old(packages)[package.value := PackageMembers(old(packages), package.value) + {StripLibraryName(library)}]
      ensures !(package.Some? && package.value != "") ==> packages == old(packages)
    {
      var lib := NewLibrary(library, system);
      WellFiledAdd(libraries, library, system);
      libraries := libraries[lib.name := lib];
      if package.Some? && package.value != "" {
        packages := packages[package.value := PackageMembers(packages, package.value) + {lib.name}];
      }
    }

    static function PackageMembers(packages: map<string, set<string>>, package: string): set<string>
    {
      if package in packages then packages[package] else {}
    }

    /**
      `remove_library`: forgets the library, every symbol its file defines and
      its file in every pending set; a pending set left empty is deleted.
     */
    method RemoveLibrary(library: string)
      requires Valid()
      modifies this`libraries, this`definedSymbols, this`undefinedSymbols
      ensures Valid()
      ensures StripLibraryName(library) !in old(libraries) ==>
                libraries == old(libraries) && definedSymbols == old(definedSymbols) && undefinedSymbols == old(undefinedSymbols)
      ensures StripLibraryName(library) in old(libraries) ==>
                var f := old(libraries)[StripLibraryName(library)].filename;
                && libraries == old(libraries) - {StripLibraryName(library)}
                && definedSymbols == WithoutDefiner(old(definedSymbols), f)
                && undefinedSymbols == WithoutDependent(old(undefinedSymbols), f)
    {
      var key := StripLibraryName(library);
      if key !in libraries {
        return;
      }
      var f := libraries[key].filename;
      WellFiledRemove(libraries, key);
      libraries := libraries - {key};
      definedSymbols := WithoutDefiner(definedSymbols, f);

      undefinedSymbols := DropDependent(undefinedSymbols, f);
    }

    /** The loop of `remove_library` over the pending table. */
    static method DropDependent(before: map<string, set<string>>, f: string) returns (after: map<string, set<string>>)
      ensures after == WithoutDependent(before, f)
    {
      var pending := before;
      var unneeded: set<string> := {};
      var todo := before.Keys;
      while todo != {}
        invariant todo <= before.Keys
        invariant pending.Keys == before.Keys
        invariant forall k :: k in before ==> pending[k] == if k in todo then before[k] else before[k] - {f}
        invariant forall k :: k in unneeded <==> k in before && k !in todo && before[k] == {f}
        decreases todo
      {
        var k :| k in todo;
        if f in pending[k] {
          pending := pending[k := pending[k] - {f}];
          if pending[k] == {} {
            unneeded := unneeded + {k};
          }
        }
        todo := todo - {k};
      }
      after := pending - unneeded;
      assert forall k :: k in unneeded <==> k in before && before[k] == {f};
      assert after.Keys == WithoutDependent(before, f).Keys;
    }

    /**
      `add_dependency`: unless source and target are the same string, records
      `tgt` among the needs of the library filed under the stripped `src`;
      `ok` is false where Python raises `KeyError` (no such library).
     */
    method AddDependency(src: string, tgt: string) returns (ok: bool)
      requires Valid()
      modifies this`libraries
      ensures Valid()
      ensures ok <==> src == tgt || StripLibraryName(src) in old(libraries)
      ensures src == tgt || !ok ==> libraries == old(libraries)
      ensures src != tgt && ok ==>
                var key := StripLibraryName(src);
                libraries == old(libraries)[key := old(libraries)[key].(dependencies := old(libraries)[key].dependencies + {tgt})]
    {
      var key := StripLibraryName(src);
      if src == tgt {
        return true;
      }
      if key !in libraries {
        return false;
      }
      WellFiledAddDependency(libraries, key, tgt);
      libraries := libraries[key := libraries[key].(dependencies := libraries[key].dependencies + {tgt})];
      ok := true;
    }

    /**
      `get_dependencies`: `None` where Python raises (the name designates no
      library); otherwise the direct needs, or, when `transitive`, everything
      reachable from them through the needs of catalogued libraries.
     */
    method GetDependencies(library: string, transitive: bool) returns (r: Option<set<string>>)
      ensures r.Some? <==> Lookup(libraries, library).Some?
      ensures r.Some? && !transitive ==> r.value == Lookup(libraries, library).value.dependencies
      ensures r.Some? && transitive ==> IsClosureOf(Needs(libraries), r.value, Lookup(libraries, library).value.dependencies)
    {
      var lib := GetLibrary(library);
      if lib.None? {
        return None;
      }
      var seeds := lib.value.dependencies;
      if transitive {
        var deps := Walk(Needs(libraries), AllDependencies(libraries) + seeds, seeds);
        r := Some(deps);
      } else {
        r := Some(seeds);
      }
    }

    /** The symbols with a known definer. */
    function DefinedSymbols(): (r: set<string>)
      reads this
      ensures forall s :: s in r <==> GetLibraryDefiningSymbol(s).Some?
    {
      definedSymbols.Keys
    }

    /** The symbols some file still waits for. */
    function UndefinedSymbols(): (r: set<string>)
      reads this
      ensures forall s :: s !in r ==> LibrariesNeedingUndefinedSymbol(s) == {}
      ensures forall s :: s in r ==> s in undefinedSymbols && LibrariesNeedingUndefinedSymbol(s) == undefinedSymbols[s]
    {
      undefinedSymbols.Keys
    }

    /**
      `define_symbol`: the library must be catalogued; the file becomes the
      symbol's definer (the last one registered wins) and the files that waited
      for the symbol are handed back and no longer wait.
     */
    method DefineSymbol(symbol: string, libraryFile: string) returns (dependents: set<string>)
      requires Lookup(libraries, libraryFile).Some?
      modifies this`definedSymbols, this`undefinedSymbols
      ensures definedSymbols == old(definedSymbols)[symbol := libraryFile]
      ensures dependents == if symbol in old(undefinedSymbols) then old(undefinedSymbols)[symbol] else {}
      ensures undefinedSymbols == old(undefinedSymbols) - {symbol}
    {
      definedSymbols := definedSymbols[symbol := libraryFile];
      dependents := if symbol in undefinedSymbols then undefinedSymbols[symbol] else {};
      undefinedSymbols := undefinedSymbols - {symbol};
    }

    /** `get_library_defining_symbol`. */
    function GetLibraryDefiningSymbol(symbol: string): (r: Option<string>)
      reads this
      ensures r.None? <==> symbol !in definedSymbols
      ensures r.Some? ==> definedSymbols[symbol] == r.value
    {
      if symbol in definedSymbols then Some(definedSymbols[symbol]) else None
    }

    /** `add_undefined_symbol_dependency`: `libraryFile` waits for `symbol`. */
    method AddUndefinedSymbolDependency(symbol: string, libraryFile: string)
      modifies this`undefinedSymbols
      ensures undefinedSymbols == old(undefinedSymbols)[symbol := PendingOn(old(undefinedSymbols), symbol) + {libraryFile}]
    {
      undefinedSymbols := undefinedSymbols[symbol := PendingOn(undefinedSymbols, symbol) + {libraryFile}];
    }

    static function PendingOn(undefined: map<string, set<string>>, symbol: string): set<string>
    {
      if symbol in undefined then undefined[symbol] else {}
    }

    /** `libraries_needing_undefined_symbol`. */
    function LibrariesNeedingUndefinedSymbol(symbol: string): (r: set<string>)
      reads this
      ensures forall f :: f in r <==> symbol in undefinedSymbols && f in undefinedSymbols[symbol]
    {
      PendingOn(undefinedSymbols, symbol)
    }

    predicate IsPackage(package: string)
      reads this
      ensures !IsPackage(package) ==> PackageLibraries(package) == {}
    {
      package in packages
    }

    /** `package_libraries`: the keys tagged with the package (the list order is left open). */
    function PackageLibraries(package: string): (r: set<string>)
      reads this
      ensures forall k :: k in r <==> package in packages && k in packages[package]
    {
      PackageMembers(packages, package)
    }

    predicate IsComponent(component: string)
      reads this
      ensures !IsComponent(component) ==> GetComponentLibraries(component) == {}
    {
      component in components
    }

    /** `get_component_libraries`: the members, or the empty set for an unknown component. */
    function GetComponentLibraries(component: string): (r: set<string>)
      reads this
      ensures forall l :: l in r <==> component in components && l in components[component]
    {
      if component in components then components[component] else {}
    }

    /**
      `set_component_libraries`: replaces the component's members wholesale. The
      reverse index is not touched.
     */
    method SetComponentLibraries(component: string, libs: seq<string>)
      requires Valid()
      modifies this`components, this`componentOrder
      ensures Valid()
      ensures components == old(components)[component := set l | l in libs]
      ensures componentOrder == if component in old(components) then old(componentOrder) else old(componentOrder) + [component]
    {
      if component !in components {
        componentOrder := componentOrder + [component];
      }
      components := components[component := set l | l in libs];
    }

    /** `__build_components_reverse_map`: maps every member key to its component, in insertion order. */
    method BuildComponentsReverseMap()
      modifies this`libs2components
      ensures libs2components == old(libs2components) + ReverseIndex(componentOrder, ComponentKeys(components))
    {
      libs2components := BuildIndex(libs2components, componentOrder, ComponentKeys(components));
    }

    /** The outer loop of the build: the components in order, each filing its member keys. */
    static method BuildIndex(start: map<string, string>, order: seq<string>, keys: map<string, set<string>>)
      returns (index: map<string, string>)
      ensures index == start + ReverseIndex(order, keys)
    {
      index := start;
      var i := 0;
      while i < |order|
        invariant 0 <= i <= |order|
        invariant index == start + ReverseIndex(order[..i], keys)
      {
        var comp := order[i];
        ghost var filed := Filing(MemberKeys(keys, comp), comp);
        assert order[..i + 1] == order[..i] + [comp];
        ReverseIndexSnoc(order[..i], keys, comp);
        MapUnionAssociates(start, ReverseIndex(order[..i], keys), filed);
        index := IndexComponent(index, comp, MemberKeys(keys, comp));
        i := i + 1;
      }
      assert order[..i] == order;
    }

    /** The inner loop of the build: files every member key under the component. */
    static method IndexComponent(start: map<string, string>, comp: string, keys: set<string>)
      returns (index: map<string, string>)
      ensures index == start + Filing(keys, comp)
    {
      index := start;
      var todo := keys;
      while todo != {}
        invariant todo <= keys
        invariant index == start + Filing(keys - todo, comp)
        decreases todo
      {
        var k :| k in todo;
        index := index[k := comp];
        todo := todo - {k};
      }
      assert keys - todo == keys;
    }

    /**
      `get_library_component`: the component whose members include the library
      (compared by key). The reverse index is (re)built only when it is empty
      and there are components; otherwise the stored index answers as it is.
     */
    method GetLibraryComponent(lib: string) returns (r: Option<string>)
      modifies this`libs2components
      ensures libs2components == Loaded(components, componentOrder, old(libs2components))
      ensures r == ComponentOf(libs2components, lib)
    {
      if |components| > 0 && |libs2components| == 0 {
        ghost var empty := libs2components;
        BuildComponentsReverseMap();
        UnionWithEmpty(empty, libs2components, ReverseIndex(componentOrder, ComponentKeys(components)));
      }
      var key := StripLibraryName(lib);
      r := if key in libs2components then Some(libs2components[key]) else None;
    }

    /** `filter_system_libraries`. */
    function FilterSystemLibraries(libs: seq<string>, system: bool): (r: seq<string>)
      reads this
      ensures |r| <= |libs|
      ensures forall x :: x in r <==> x in libs && (GetLibrary(x).Some? && GetLibrary(x).value.system) == system
    {
      FilterSystem(libraries, libs, system)
    }
  }
}

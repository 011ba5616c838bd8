/**
 * The symbol bookkeeping of scripts/cpp/xc_list_libraries.py: reading the
 * text `nm` prints into symbol lists (`get_std_symbols`, `get_symbols`), and
 * deriving "library A depends on library B" from which library defines the
 * symbols another leaves undefined (`list_libraries`).  Running `nm` and
 * walking the directory are not modelled: `nm`'s standard output and the list
 * of library paths are inputs.
 */
module ListLibraries {
  import opened Wrappers
  import opened Collections
  import opened PyStr
  import opened TopologicalSort

  // ---------------------------------------------------------- get_std_symbols

  /** The symbol types `get_std_symbols` keeps: initialised data, text, DLL-specific and weak. */
  predicate IsStdExport(symbolType: string)
  {
    symbolType in ["D", "T", "i", "W"]
  }

  /** `name.split("@")[0]`: the name without its symbol-version suffix. */
  function BaseName(name: string): (base: string)
    ensures base <= name
    ensures !Contains(base, "@")
  {
    JoinSplit(name, "@");
    PrefixOfJoin(Split(name, "@"), "@");
    SplitPartsAvoidSep(name, "@");
    Split(name, "@")[0]
  }

  /** What one line of `nm --dynamic --extern-only` contributes: for `address type name` with a kept type, the base name. */
  function StdSymbol(line: string): Option<string>
  {
    var parts := Words(line);
    if |parts| == 3 && IsStdExport(parts[1]) then Some(BaseName(parts[2])) else None
  }

  /** The symbols of one library's output lines, in line order. */
  function StdSymbolsOfLines(lines: seq<string>): seq<string>
  {
    if lines == [] then []
    else
      var last := lines[|lines| - 1];
      StdSymbolsOfLines(lines[..|lines| - 1]) + (if StdSymbol(last).Some? then [StdSymbol(last).value] else [])
  }

  /** A library's lines contribute exactly the base names of their kept symbols, none of which holds an `@`. */
  lemma {:induction false} StdSymbolsOfLinesMembership(lines: seq<string>)
    ensures forall s :: s in StdSymbolsOfLines(lines) <==> exists line :: line in lines && StdSymbol(line) == Some(s)
    ensures forall s :: s in StdSymbolsOfLines(lines) ==> !Contains(s, "@")
  {
    if lines != [] {
      var init, last := lines[..|lines| - 1], lines[|lines| - 1];
      StdSymbolsOfLinesMembership(init);
      assert forall line :: line in lines <==> line in init || line == last;
    }
  }

  /** The output of one standard library contributes `s`. */
  predicate Contributes(output: string, s: string)
  {
    s in StdSymbolsOfLines(SplitLines(output))
  }

  /** The symbols each standard library's output contributes. */
  function PerLibrary(outputs: seq<string>): (perLibrary: seq<seq<string>>)
    ensures |perLibrary| == |outputs|
    ensures forall k :: 0 <= k < |outputs| ==> perLibrary[k] == StdSymbolsOfLines(SplitLines(outputs[k]))
  {
    seq(|outputs|, k requires 0 <= k < |outputs| => StdSymbolsOfLines(SplitLines(outputs[k])))
  }

  /** The std symbols of the outputs of the standard libraries, library by library. */
  function StdSymbols(outputs: seq<string>): seq<string>
  {
    Flatten(PerLibrary(outputs))
  }

  /** A symbol is a std symbol exactly when some standard library's output contributes it. */
  lemma StdSymbolsMembership(outputs: seq<string>)
    ensures forall s :: s in StdSymbols(outputs) <==> exists k :: 0 <= k < |outputs| && Contributes(outputs[k], s)
  {
    FlattenMembership(PerLibrary(outputs));
  }

  /** `get_std_symbols()`, given what `nm` prints for each standard library (the C and math libraries). */
  method GetStdSymbols(outputs: seq<string>) returns (stdSymbols: seq<string>)
    ensures stdSymbols == StdSymbols(outputs)
  {
    ghost var perLibrary := PerLibrary(outputs);
    stdSymbols := [];
    for k := 0 to |outputs|
      invariant stdSymbols == Flatten(perLibrary[..k])
    {
      var lines := SplitLines(outputs[k]);
      ghost var before := stdSymbols;
      for i := 0 to |lines|
        invariant stdSymbols == before + StdSymbolsOfLines(lines[..i])
      {
        var parts := Words(lines[i]);
        if |parts| == 3 {
          var symbolType, symbolName := parts[1], parts[2];
          if symbolType in ["D", "T", "i", "W"] {
            symbolName := Split(symbolName, "@")[0];
            stdSymbols := stdSymbols + [symbolName];
          }
        }
        assert lines[..i + 1][..i] == lines[..i];
      }
      assert lines[..|lines|] == lines;
      assert perLibrary[..k + 1] == perLibrary[..k] + [perLibrary[k]];
      FlattenAppend(perLibrary[..k], perLibrary[k]);
    }
    assert perLibrary[..|outputs|] == perLibrary;
  }

  // -------------------------------------------------------------- get_symbols

  /** The type and name of a symbol line of `nm --extern-only`. */
  datatype SymbolEntry = SymbolEntry(symbolType: string, name: string)

  /** A two-field line is `type name`, a three-field line `address type name`; other lines carry no symbol. */
  function Entry(line: string): Option<SymbolEntry>
  {
    var parts := Words(line);
    if |parts| == 2 then Some(SymbolEntry(parts[0], parts[1]))
    else if |parts| == 3 then Some(SymbolEntry(parts[1], parts[2]))
    else None
  }

  /** `line` names symbol `s` with a type other than `U`: the library defines `s`. */
  predicate Defines(line: string, s: string)
  {
    Entry(line).Some? && Entry(line).value.symbolType != "U" && Entry(line).value.name == s
  }

  /** `line` names symbol `s` with type `U`: the library uses `s` without defining it. */
  predicate Needs(line: string, s: string)
  {
    Entry(line).Some? && Entry(line).value.symbolType == "U" && Entry(line).value.name == s
  }

  /** The defined symbols of the lines, in line order. */
  function DefinedOf(lines: seq<string>): seq<string>
  {
    if lines == [] then []
    else
      var entry := Entry(lines[|lines| - 1]);
      DefinedOf(lines[..|lines| - 1]) + (if entry.Some? && entry.value.symbolType != "U" then [entry.value.name] else [])
  }

  /** A symbol is among the defined ones exactly when some line defines it. */
  lemma {:induction false} DefinedOfMembership(lines: seq<string>)
    ensures forall s :: s in DefinedOf(lines) <==> exists line :: line in lines && Defines(line, s)
  {
    if lines != [] {
      var init, last := lines[..|lines| - 1], lines[|lines| - 1];
      DefinedOfMembership(init);
      assert forall line :: line in lines <==> line in init || line == last;
      var entry := Entry(last);
      var tail := if entry.Some? && entry.value.symbolType != "U" then [entry.value.name] else [];
      assert DefinedOf(lines) == DefinedOf(init) + tail;
      assert forall s :: s in tail <==> Defines(last, s);
    }
  }

  /** The undefined symbols of the lines, in line order. */
  function UndefinedOf(lines: seq<string>): seq<string>
  {
    if lines == [] then []
    else
      var entry := Entry(lines[|lines| - 1]);
      UndefinedOf(lines[..|lines| - 1]) + (if entry.Some? && entry.value.symbolType == "U" then [entry.value.name] else [])
  }

  /** A symbol is among the undefined ones exactly when some line needs it. */
  lemma {:induction false} UndefinedOfMembership(lines: seq<string>)
    ensures forall s :: s in UndefinedOf(lines) <==> exists line :: line in lines && Needs(line, s)
  {
    if lines != [] {
      var init, last := lines[..|lines| - 1], lines[|lines| - 1];
      UndefinedOfMembership(init);
      assert forall line :: line in lines <==> line in init || line == last;
      var entry := Entry(last);
      var tail := if entry.Some? && entry.value.symbolType == "U" then [entry.value.name] else [];
      assert UndefinedOf(lines) == UndefinedOf(init) + tail;
      assert forall s :: s in tail <==> Needs(last, s);
    }
  }

  /** The comprehension removing self-references: the undefined symbols the library does not define itself. */
  function WithoutSelfReferences(undefined: seq<string>, defined: seq<string>): seq<string>
  {
    if undefined == [] then []
    else
      var init, last := undefined[..|undefined| - 1], undefined[|undefined| - 1];
      if last in defined then WithoutSelfReferences(init, defined)
      else WithoutSelfReferences(init, defined) + [last]
  }

  /** Removing self-references keeps exactly the symbols not defined, with their order and repeats. */
  lemma {:induction false} WithoutSelfReferencesSpec(undefined: seq<string>, defined: seq<string>)
    ensures forall s :: s in WithoutSelfReferences(undefined, defined) <==> s in undefined && s !in defined
    ensures forall s :: multiset(WithoutSelfReferences(undefined, defined))[s] == if s in defined then 0 else multiset(undefined)[s]
  {
    if undefined != [] {
      var init, last := undefined[..|undefined| - 1], undefined[|undefined| - 1];
      assert undefined == init + [last];
      WithoutSelfReferencesSpec(init, defined);
    }
  }

  /** The filter works symbol by symbol, so it keeps the order of the undefined symbols. */
  lemma {:induction false} WithoutSelfReferencesAppend(a: seq<string>, b: seq<string>, defined: seq<string>)
    ensures WithoutSelfReferences(a + b, defined) == WithoutSelfReferences(a, defined) + WithoutSelfReferences(b, defined)
    decreases |b|
  {
    if b != [] {
      var b', last := b[..|b| - 1], b[|b| - 1];
      assert (a + b)[..|a + b| - 1] == a + b';
      WithoutSelfReferencesAppend(a, b', defined);
    } else {
      assert a + b == a;
    }
  }

  /** The result of `get_symbols`: `(defined_symbols, undefined_symbols)`. */
  datatype Symbols = Symbols(defined: seq<string>, undefined: seq<string>)

  /** What `get_symbols` returns for a library whose `nm` output is `output`. */
  function SymbolsOf(output: string): Symbols
  {
    var lines := SplitLines(output);
    Symbols(DefinedOf(lines), WithoutSelfReferences(UndefinedOf(lines), DefinedOf(lines)))
  }

  /** No symbol `get_symbols` reports is both defined and undefined. */
  lemma SymbolsOfDisjoint(output: string)
    ensures forall s :: s in SymbolsOf(output).undefined ==> s !in SymbolsOf(output).defined
  {
    var lines := SplitLines(output);
    WithoutSelfReferencesSpec(UndefinedOf(lines), DefinedOf(lines));
  }

  /** `get_symbols(library)`, given what `nm --extern-only` prints for it. */
  method GetSymbols(output: string) returns (definedSymbols: seq<string>, undefinedSymbols: seq<string>)
    ensures Symbols(definedSymbols, undefinedSymbols) == SymbolsOf(output)
    ensures forall s :: s in undefinedSymbols ==> s !in definedSymbols
  {
    var lines := SplitLines(output);
    definedSymbols, undefinedSymbols := [], [];
    for i := 0 to |lines|
      invariant definedSymbols == DefinedOf(lines[..i])
      invariant undefinedSymbols == UndefinedOf(lines[..i])
    {
      var parts := Words(lines[i]);
      if |parts| == 2 {
        var symbolType, symbolName := parts[0], parts[1];
        if symbolType == "U" {
          undefinedSymbols := undefinedSymbols + [symbolName];
        } else {
          definedSymbols := definedSymbols + [symbolName];
        }
      } else if |parts| == 3 {
        var symbolType, symbolName := parts[1], parts[2];
        if symbolType == "U" {
          undefinedSymbols := undefinedSymbols + [symbolName];
        } else {
          definedSymbols := definedSymbols + [symbolName];
        }
      }
      assert lines[..i + 1][..i] == lines[..i];
    }
    assert lines[..|lines|] == lines;
    WithoutSelfReferencesSpec(undefinedSymbols, definedSymbols);
    undefinedSymbols := WithoutSelfReferences(undefinedSymbols, definedSymbols);
  }

  // ---------------------------------------------------------- dependency map

  /** The libraries that define at least one of `symbols`. */
  ghost function Providers(defined: map<string, seq<string>>, symbols: seq<string>): set<string>
  {
    set b | b in defined && exists s :: s in symbols && s in defined[b]
  }

  lemma ProvidersSnoc(defined: map<string, seq<string>>, symbols: seq<string>, symbol: string)
    ensures Providers(defined, symbols + [symbol]) == Providers(defined, symbols) + set b | b in defined && symbol in defined[b]
  {
    forall b | b in Providers(defined, symbols) ensures b in Providers(defined, symbols + [symbol]) {
      var s :| s in symbols && s in defined[b];
      assert s in symbols + [symbol];
    }
  }

  /**
   * The innermost loop of the dependency construction: every library that
   * defines `symbol` joins the dependencies of `curLib`; no other entry
   * changes.  `found` tells whether some library defines the symbol.
   */
  method AddProviders(deps: Deps, curLib: string, symbol: string, definedSymbols: map<string, seq<string>>) returns (deps': Deps, found: bool)
    ensures forall a :: a != curLib ==> (a in deps' <==> a in deps) && (a in deps ==> deps'[a] == deps[a])
    ensures DependenciesOf(deps', curLib) == DependenciesOf(deps, curLib) + set b | b in definedSymbols && symbol in definedSymbols[b]
    ensures curLib in deps' <==> DependenciesOf(deps', curLib) != {} || curLib in deps
    ensures found <==> exists b :: b in definedSymbols && symbol in definedSymbols[b]
  {
    deps', found := deps, false;
    var others := definedSymbols.Keys;
    while others != {}
      invariant others <= definedSymbols.Keys
      invariant forall a :: a != curLib ==> (a in deps' <==> a in deps) && (a in deps ==> deps'[a] == deps[a])
      invariant DependenciesOf(deps', curLib) == DependenciesOf(deps, curLib) + set b | b in definedSymbols.Keys - others && symbol in definedSymbols[b]
      invariant curLib in deps' <==> DependenciesOf(deps', curLib) != {} || curLib in deps
      invariant found <==> exists b :: b in definedSymbols.Keys - others && symbol in definedSymbols[b]
      decreases others
    {
      var otherLibrary :| otherLibrary in others;
      if symbol in definedSymbols[otherLibrary] {
        deps' := deps'[curLib := DependenciesOf(deps', curLib) + {otherLibrary}];
        found := true;
      }
      others := others - {otherLibrary};
    }
  }

  /**
   * The nested loops of `list_libraries` building `dependencies`: library
   * `a` depends on library `b` exactly when `b` defines one of the symbols
   * `a` leaves undefined, and a library with no such symbol gets no entry.
   */
  method BuildDependencies(undefinedSymbols: map<string, seq<string>>, definedSymbols: map<string, seq<string>>) returns (deps: Deps)
    ensures forall a :: a in deps ==> a in undefinedSymbols && deps[a] != {}
    ensures forall a :: a in undefinedSymbols ==> DependenciesOf(deps, a) == Providers(definedSymbols, undefinedSymbols[a])
    ensures forall a, b :: DependsOn(deps, a, b) <==> a in undefinedSymbols && b in definedSymbols && exists s :: s in undefinedSymbols[a] && s in definedSymbols[b]
  {
    deps := map[];
    var toVisit := undefinedSymbols.Keys;
    while toVisit != {}
      invariant toVisit <= undefinedSymbols.Keys
      invariant forall a :: a in deps ==> a in undefinedSymbols.Keys - toVisit && deps[a] != {}
      invariant forall a :: a in undefinedSymbols.Keys - toVisit ==> DependenciesOf(deps, a) == Providers(definedSymbols, undefinedSymbols[a])
      decreases toVisit
    {
      var curLib :| curLib in toVisit;
      var curSymbols := undefinedSymbols[curLib];
      assert DependenciesOf(deps, curLib) == {};
      assert Providers(definedSymbols, curSymbols[..0]) == {};
      for i := 0 to |curSymbols|
        invariant forall a :: a in deps ==> a in undefinedSymbols.Keys - toVisit + {curLib} && deps[a] != {}
        invariant forall a :: a in undefinedSymbols.Keys - toVisit ==> DependenciesOf(deps, a) == Providers(definedSymbols, undefinedSymbols[a])
        invariant DependenciesOf(deps, curLib) == Providers(definedSymbols, curSymbols[..i])
      {
        var symbol := curSymbols[i];
        var found;
        deps, found := AddProviders(deps, curLib, symbol, definedSymbols);
        assert curSymbols[..i + 1] == curSymbols[..i] + [symbol];
        ProvidersSnoc(definedSymbols, curSymbols[..i], symbol);
      }
      assert curSymbols[..|curSymbols|] == curSymbols;
      toVisit := toVisit - {curLib};
    }
    EdgesFromProviders(undefinedSymbols, definedSymbols, deps);
  }

  /** A map whose entries are the providers of each library's undefined symbols has exactly the symbol-sharing edges. */
  lemma EdgesFromProviders(undefinedSymbols: map<string, seq<string>>, definedSymbols: map<string, seq<string>>, deps: Deps)
    requires forall a :: a in deps ==> a in undefinedSymbols
    requires forall a :: a in undefinedSymbols ==> DependenciesOf(deps, a) == Providers(definedSymbols, undefinedSymbols[a])
    ensures forall a, b :: DependsOn(deps, a, b) <==> a in undefinedSymbols && b in definedSymbols && exists s :: s in undefinedSymbols[a] && s in definedSymbols[b]
  {
    forall a, b | DependsOn(deps, a, b)
      ensures a in undefinedSymbols && b in definedSymbols && exists s :: s in undefinedSymbols[a] && s in definedSymbols[b]
    {
      assert b in Providers(definedSymbols, undefinedSymbols[a]);
    }
    forall a, b, s | a in undefinedSymbols && b in definedSymbols && s in undefinedSymbols[a] && s in definedSymbols[b]
      ensures DependsOn(deps, a, b)
    {
      assert b in Providers(definedSymbols, undefinedSymbols[a]);
    }
  }

  /** Once self-references are removed, no library depends on itself. */
  lemma NoSelfDependency(undefinedSymbols: map<string, seq<string>>, definedSymbols: map<string, seq<string>>, deps: Deps, lib: string)
    requires forall a, b :: DependsOn(deps, a, b) <==> a in undefinedSymbols && b in definedSymbols && exists s :: s in undefinedSymbols[a] && s in definedSymbols[b]
    requires lib in undefinedSymbols && lib in definedSymbols
    requires forall s :: s in undefinedSymbols[lib] ==> s !in definedSymbols[lib]
    ensures !DependsOn(deps, lib, lib)
  {
  }

  // ----------------------------------------------------------- list_libraries

  /** Every library in the tables maps to the symbols of its `nm` output. */
  ghost predicate TablesOf(nmOutputs: map<string, string>, definedSymbols: map<string, seq<string>>, undefinedSymbols: map<string, seq<string>>)
  {
    && definedSymbols.Keys == undefinedSymbols.Keys
    && definedSymbols.Keys <= nmOutputs.Keys
    && forall a :: a in definedSymbols ==> Symbols(definedSymbols[a], undefinedSymbols[a]) == SymbolsOf(nmOutputs[a])
  }

  /** The tables hold, for every library recorded, the symbols `expected` gives it. */
  ghost predicate TablesMatch(expected: map<string, Symbols>, definedSymbols: map<string, seq<string>>, undefinedSymbols: map<string, seq<string>>)
  {
    && definedSymbols.Keys == undefinedSymbols.Keys
    && definedSymbols.Keys <= expected.Keys
    && forall a :: a in definedSymbols ==> Symbols(definedSymbols[a], undefinedSymbols[a]) == expected[a]
  }

  /** Recording the symbols of one more library keeps the tables right. */
  lemma TablesMatchUpdate(expected: map<string, Symbols>, definedSymbols: map<string, seq<string>>, undefinedSymbols: map<string, seq<string>>,
                          lib: string, defined: seq<string>, undefined: seq<string>)
    requires TablesMatch(expected, definedSymbols, undefinedSymbols)
    requires lib in expected && Symbols(defined, undefined) == expected[lib]
    ensures TablesMatch(expected, definedSymbols[lib := defined], undefinedSymbols[lib := undefined])
  {
    var d, u := definedSymbols[lib := defined], undefinedSymbols[lib := undefined];
    forall a | a in d
      ensures Symbols(d[a], u[a]) == expected[a]
    {
      if a != lib {
        assert d[a] == definedSymbols[a] && u[a] == undefinedSymbols[a];
      }
    }
  }

  /** The first loop of `list_libraries`: `get_symbols` for each library, keyed by its path. */
  method SymbolTables(libraries: seq<string>, nmOutputs: map<string, string>) returns (definedSymbols: map<string, seq<string>>, undefinedSymbols: map<string, seq<string>>)
    requires Elems(libraries) <= nmOutputs.Keys
    ensures definedSymbols.Keys == Elems(libraries)
    ensures TablesOf(nmOutputs, definedSymbols, undefinedSymbols)
  {
    ghost var expected := map a | a in nmOutputs :: SymbolsOf(nmOutputs[a]);
    definedSymbols, undefinedSymbols := map[], map[];
    for i := 0 to |libraries|
      invariant definedSymbols.Keys == Elems(libraries[..i])
      invariant TablesMatch(expected, definedSymbols, undefinedSymbols)
    {
      var curLib := libraries[i];
      var defined, undefined := GetSymbols(nmOutputs[curLib]);
      TablesMatchUpdate(expected, definedSymbols, undefinedSymbols, curLib, defined, undefined);
      ElemsPrefix(libraries, i);
      definedSymbols := definedSymbols[curLib := defined];
      undefinedSymbols := undefinedSymbols[curLib := undefined];
    }
    assert libraries[..|libraries|] == libraries;
  }

  /**
   * `list_libraries` without its printing: the symbols of each library are
   * read from its `nm` output, the dependency map is built from them, and
   * the libraries are put in dependency order.  `libraries` is the list of
   * `.a` paths the directory walk found.
   */
  method ListLibraries(libraries: seq<string>, nmOutputs: map<string, string>) returns (dependencies: Deps, sortedLibraries: seq<string>)
    requires Distinct(libraries) && Elems(libraries) <= nmOutputs.Keys
    ensures forall a, b :: DependsOn(dependencies, a, b) <==>
      a in libraries && b in libraries && exists s :: s in SymbolsOf(nmOutputs[a]).undefined && s in SymbolsOf(nmOutputs[b]).defined
    ensures forall a :: !DependsOn(dependencies, a, a)
    ensures Distinct(sortedLibraries)
    ensures forall lib :: lib in sortedLibraries <==> lib in libraries && !FedByCycle(dependencies, lib)
    ensures forall i, j :: 0 <= i < |sortedLibraries| && 0 <= j < |sortedLibraries| && DependsOn(dependencies, sortedLibraries[i], sortedLibraries[j]) ==> j < i
  {
    var definedSymbols, undefinedSymbols := SymbolTables(libraries, nmOutputs);
    dependencies := BuildDependencies(undefinedSymbols, definedSymbols);
    forall a | a in libraries ensures !DependsOn(dependencies, a, a) {
      SymbolsOfDisjoint(nmOutputs[a]);
      NoSelfDependency(undefinedSymbols, definedSymbols, dependencies, a);
    }
    assert Closed(libraries, dependencies) by {
      forall a | a in dependencies ensures a in libraries && dependencies[a] <= Elems(libraries) {
        forall b | b in dependencies[a] ensures b in Elems(libraries) {
          assert DependsOn(dependencies, a, b);
        }
      }
    }
    sortedLibraries := TopologicalSort.TopologicalSort(libraries, dependencies);
  }
}

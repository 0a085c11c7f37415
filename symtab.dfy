/** The query layer of a symbol table (symtabAPI/src/Symtab-lookup.C): name
    lookup through three name maps or an exhaustive pattern scan, listing of
    all symbols, and the address searches over functions, regions and
    exception blocks.

    Entities are held in arenas (`symbolAt`, `functionAt`, `moduleAt`,
    `regionAt`) and referred to by handle, so the source's pointer vectors are
    sequences of handles and its pointer order is the order on handles. */
module SymtabLookup {
  import opened Symbols
  import opened Entities
  import opened Ordering
  import PatternMatching

  /** A name map read through `operator[]`: a missing name reads as the empty list. */
  function Lookup(m: map<string, seq<Ptr>>, name: string): seq<Ptr>
  {
    if name in m then m[name] else []
  }

  /** The name of a symbol under one of the three schemes. */
  function NameOf(s: Symbol, scheme: Scheme): string
  {
    match scheme
    case Mangled => GetName(s)
    case Pretty => s.prettyName
    case Typed => s.typedName
  }

  /** The type filter: `ST_UNKNOWN` lets every type through. */
  predicate OfType(s: Symbol, sType: SymbolType)
  {
    sType == ST_UNKNOWN || s.symType == sType
  }

  predicate TypedAs(x: Ptr, at: map<Ptr, Symbol>, sType: SymbolType)
  {
    x in at && OfType(at[x], sType)
  }

  /** The handles of `xs` that pass the type filter, in their order. */
  function KeepOfType(xs: seq<Ptr>, at: map<Ptr, Symbol>, sType: SymbolType): seq<Ptr>
  {
    if xs == [] then []
    else (if TypedAs(xs[0], at, sType) then [xs[0]] else []) + KeepOfType(xs[1..], at, sType)
  }

  lemma {:induction false} KeepOfTypeMembers(xs: seq<Ptr>, at: map<Ptr, Symbol>, sType: SymbolType)
    ensures forall x :: x in KeepOfType(xs, at, sType) <==> x in xs && TypedAs(x, at, sType)
  {
    if xs != [] {
      KeepOfTypeMembers(xs[1..], at, sType);
      assert xs == [xs[0]] + xs[1..];
    }
  }

  lemma {:induction false} KeepOfTypeSnoc(xs: seq<Ptr>, x: Ptr, at: map<Ptr, Symbol>, sType: SymbolType)
    ensures KeepOfType(xs + [x], at, sType)
         == KeepOfType(xs, at, sType) + (if TypedAs(x, at, sType) then [x] else [])
  {
    var t := if TypedAs(x, at, sType) then [x] else [];
    if xs == [] {
      assert xs + [x] == [x] && [x][1..] == [];
    } else {
      var h := if TypedAs(xs[0], at, sType) then [xs[0]] else [];
      assert (xs + [x])[0] == xs[0];
      assert (xs + [x])[1..] == xs[1..] + [x];
      KeepOfTypeSnoc(xs[1..], x, at, sType);
      calc {
        KeepOfType(xs + [x], at, sType);
        h + KeepOfType(xs[1..] + [x], at, sType);
        h + (KeepOfType(xs[1..], at, sType) + t);
        (h + KeepOfType(xs[1..], at, sType)) + t;
        KeepOfType(xs, at, sType) + t;
      }
    }
  }

  /** The values of the undefined-symbol map, concatenated in its iteration order. */
  function Flatten(entries: seq<(string, seq<Ptr>)>): seq<Ptr>
  {
    if entries == [] then [] else entries[0].1 + Flatten(entries[1..])
  }

  lemma {:induction false} FlattenSnoc(entries: seq<(string, seq<Ptr>)>, e: (string, seq<Ptr>))
    ensures Flatten(entries + [e]) == Flatten(entries) + e.1
  {
    if entries == [] {
      assert [e][1..] == [];
    } else {
      assert (entries + [e])[1..] == entries[1..] + [e];
      FlattenSnoc(entries[1..], e);
    }
  }

  /** The first region of `rs` whose span holds `where`, if any. */
  function FirstEnclosing(rs: seq<Ptr>, at: map<Ptr, Region>, where: nat): (r: Option<Ptr>)
    requires AllIn(rs, at)
    ensures r.Some? ==> r.value in rs && Encloses(at[r.value], where)
    ensures r.None? <==> forall x :: x in rs ==> !Encloses(at[x], where)
  {
    if rs == [] then None
    else if Encloses(at[rs[0]], where) then Some(rs[0])
    else FirstEnclosing(rs[1..], at, where)
  }

  /** Regions in ascending address order, each ending before the next begins. */
  predicate SortedDisjoint(rs: seq<Ptr>, at: map<Ptr, Region>)
    requires AllIn(rs, at)
  {
    forall i, j :: 0 <= i < j < |rs| ==> at[rs[i]].regionAddr + at[rs[i]].memSize <= at[rs[j]].regionAddr
  }

  predicate SortedByCatchStart(blocks: seq<ExceptionBlock>)
  {
    forall i, j :: 0 <= i < j < |blocks| ==> blocks[i].catchStart <= blocks[j].catchStart
  }

  /** The bisection of `getNearestFunction` over the function vector `fs`,
      step by step: the midpoint moves until it repeats; an exact hit is the
      answer at once, and otherwise the last low end is, when it starts at or
      below `offset` and its successor above. */
  function NearestBisection(fs: seq<Ptr>, at: map<Ptr, Function>, offset: nat,
                            low: nat, high: nat, lastMid: nat): Option<Ptr>
    requires AllIn(fs, at)
    requires low < |fs| && low <= high <= |fs|
    requires lastMid == |fs| + 1 || lastMid == low || lastMid == high
    requires low == high ==> lastMid == low
    decreases 2 * (high - low) + (if (low + high) / 2 == lastMid then 0 else 1)
  {
    var mid := (low + high) / 2;
    if lastMid == mid then
      if at[fs[low]].address <= offset && (low + 1 == |fs| || at[fs[low + 1]].address > offset)
      then Some(fs[low])
      else None
    else if at[fs[mid]].address > offset then NearestBisection(fs, at, offset, low, mid, mid)
    else if at[fs[mid]].address < offset then NearestBisection(fs, at, offset, mid, high, mid)
    else Some(fs[mid])
  }

  class Symtab {
    var symbolAt: map<Ptr, Symbol>
    var everyDefinedSymbol: seq<Ptr>
    var symsByMangledName: map<string, seq<Ptr>>
    var symsByPrettyName: map<string, seq<Ptr>>
    var symsByTypedName: map<string, seq<Ptr>>
    /** `undefDynSyms`: name to symbols, as its entries come in iteration order. */
    var undefDynSyms: seq<(string, seq<Ptr>)>

    var functionAt: map<Ptr, Function>
    var everyFunction: seq<Ptr>
    var sortedEveryFunction: bool
    var funcsByOffset: map<nat, Ptr>
    var varsByOffset: map<nat, Ptr>

    var moduleAt: map<Ptr, Module>
    var mods: seq<Ptr>
    var modsByFileName: map<string, Ptr>
    var modsByFullName: map<string, Ptr>

    var regionAt: map<Ptr, Region>
    var regions: seq<Ptr>
    var codeRegions: seq<Ptr>
    var dataRegions: seq<Ptr>

    /** Exception blocks, loaded sorted by catch start. */
    var excpBlocks: seq<ExceptionBlock>

    /** Every symbol handle in the indices names a symbol. */
    ghost predicate SymbolsValid()
      reads this
    {
      && AllIn(everyDefinedSymbol, symbolAt)
      && (forall n :: n in symsByMangledName ==> AllIn(symsByMangledName[n], symbolAt))
      && (forall n :: n in symsByPrettyName ==> AllIn(symsByPrettyName[n], symbolAt))
      && (forall n :: n in symsByTypedName ==> AllIn(symsByTypedName[n], symbolAt))
      && (forall k :: 0 <= k < |undefDynSyms| ==> AllIn(undefDynSyms[k].1, symbolAt))
    }

    /** Function handles name functions, the entry map is keyed by each
        function's own address, and the sorted flag is never stale. */
    ghost predicate FunctionsValid()
      reads this
    {
      && AllIn(everyFunction, functionAt)
      && (forall e :: e in funcsByOffset ==> funcsByOffset[e] in functionAt && functionAt[funcsByOffset[e]].address == e)
      && (sortedEveryFunction ==> SortedByAddress(everyFunction, functionAt))
    }

    /** Module handles name modules, each indexed under its own names. */
    ghost predicate ModulesValid()
      reads this
    {
      && AllIn(mods, moduleAt)
      && (forall n :: n in modsByFileName ==> modsByFileName[n] in moduleAt && moduleAt[modsByFileName[n]].fileName == n)
      && (forall n :: n in modsByFullName ==> modsByFullName[n] in moduleAt && moduleAt[modsByFullName[n]].fullName == n)
    }

    /** Region handles name regions; the code and data regions are drawn
        from the region list. */
    ghost predicate RegionsValid()
      reads this
    {
      && AllIn(regions, regionAt)
      && (forall x :: x in codeRegions ==> x in regions)
      && (forall x :: x in dataRegions ==> x in regions)
    }

    function NameIndex(scheme: Scheme): map<string, seq<Ptr>>
      reads this
    {
      match scheme
      case Mangled => symsByMangledName
      case Pretty => symsByPrettyName
      case Typed => symsByTypedName
    }

    /** The symbol's name under `scheme` matches the pattern, as the matcher
        is written. */
    ghost predicate PatternHit(x: Ptr, scheme: Scheme, name: string, checkCase: bool)
      reads this
    {
      x in symbolAt && PatternMatching.Matches(name, NameOf(symbolAt[x], scheme), checkCase)
    }

    /** A pattern without two adjacent `*`s hits exactly the names the
        intended matcher accepts; with them, every hit is still one it
        accepts. */
    lemma PatternHitAsIntended(x: Ptr, scheme: Scheme, name: string, checkCase: bool)
      requires x in symbolAt
      ensures PatternHit(x, scheme, name, checkCase) ==> PatternMatching.Glob(name, NameOf(symbolAt[x], scheme), checkCase)
      ensures !PatternMatching.HasDoubleStar(name) ==>
                (PatternHit(x, scheme, name, checkCase) <==> PatternMatching.Glob(name, NameOf(symbolAt[x], scheme), checkCase))
    {
      var n := NameOf(symbolAt[x], scheme);
      if PatternHit(x, scheme, name, checkCase) {
        PatternMatching.MatchesIsSound(name, n, checkCase);
      }
      if !PatternMatching.HasDoubleStar(name) {
        PatternMatching.AgreeWithoutDoubleStar(name, n, checkCase);
      }
    }

    /** `x` is a candidate under one scheme: listed under `name` in that
        scheme's map, or, for a pattern query, a defined symbol whose name
        in that scheme matches. */
    ghost predicate InScheme(x: Ptr, scheme: Scheme, name: string, isRegex: bool, checkCase: bool)
      reads this
    {
      if isRegex then x in everyDefinedSymbol && PatternHit(x, scheme, name, checkCase)
      else x in Lookup(NameIndex(scheme), name)
    }

    /** `x` is one of the symbols `findSymbolByType` reports. */
    ghost predicate Hit(x: Ptr, name: string, sType: SymbolType, nameType: NameType,
                        isRegex: bool, checkCase: bool)
      reads this
    {
      && (|| (Mangled in nameType && InScheme(x, Mangled, name, isRegex, checkCase))
          || (Pretty in nameType && InScheme(x, Pretty, name, isRegex, checkCase))
          || (Typed in nameType && InScheme(x, Typed, name, isRegex, checkCase)))
      && TypedAs(x, symbolAt, sType)
    }

    function Address(f: Ptr): nat
      reads this
      requires f in functionAt
    {
      functionAt[f].address
    }

    /** Appends to `acc` the handles of `syms` that pass the type filter. */
    method AppendOfType(acc: seq<Ptr>, syms: seq<Ptr>, sType: SymbolType) returns (r: seq<Ptr>)
      requires AllIn(syms, symbolAt)
      ensures r == acc + KeepOfType(syms, symbolAt, sType)
      ensures sType == ST_UNKNOWN ==> r == acc + syms
    {
      r := acc;
      for i := 0 to |syms|
        invariant r == acc + KeepOfType(syms[..i], symbolAt, sType)
        invariant sType == ST_UNKNOWN ==> r == acc + syms[..i]
      {
        if sType == ST_UNKNOWN || symbolAt[syms[i]].symType == sType {
          r := r + [syms[i]];
        }
        KeepOfTypeSnoc(syms[..i], syms[i], symbolAt, sType);
        assert syms[..i + 1] == syms[..i] + [syms[i]];
      }
      assert syms[..|syms|] == syms;
    }

    /** Whether `xs` holds exactly the defined symbols of `upto` whose name
        under `scheme` matches the pattern, when that scheme is selected. */
    ghost predicate Collected(xs: seq<Ptr>, scheme: Scheme, nameType: NameType, upto: seq<Ptr>,
                              name: string, checkCase: bool)
      reads this
    {
      forall x :: x in xs <==> scheme in nameType && x in upto && PatternHit(x, scheme, name, checkCase)
    }

    /** One step of the pattern scan: `sym` joins the list of a scheme exactly
        when that scheme is selected and the symbol's name matches. */
    lemma CollectedStep(xs: seq<Ptr>, scheme: Scheme, nameType: NameType, upto: seq<Ptr>, sym: Ptr,
                        hit: bool, name: string, checkCase: bool)
      requires Collected(xs, scheme, nameType, upto, name, checkCase)
      requires hit == (scheme in nameType && PatternHit(sym, scheme, name, checkCase))
      ensures Collected(if hit then xs + [sym] else xs, scheme, nameType, upto + [sym], name, checkCase)
    {
    }

    /** The pattern branch of `findSymbolByType`: one pass over the defined
        symbols, testing each selected name form against the pattern. */
    method MatchAllSchemes(name: string, nameType: NameType, checkCase: bool)
      returns (symsMangled: seq<Ptr>, symsPretty: seq<Ptr>, symsTyped: seq<Ptr>)
      requires SymbolsValid()
      ensures Collected(symsMangled, Mangled, nameType, everyDefinedSymbol, name, checkCase)
      ensures Collected(symsPretty, Pretty, nameType, everyDefinedSymbol, name, checkCase)
      ensures Collected(symsTyped, Typed, nameType, everyDefinedSymbol, name, checkCase)
    {
      symsMangled, symsPretty, symsTyped := [], [], [];
      var i := 0;
      while i < |everyDefinedSymbol|
        invariant 0 <= i <= |everyDefinedSymbol|
        invariant Collected(symsMangled, Mangled, nameType, everyDefinedSymbol[..i], name, checkCase)
        invariant Collected(symsPretty, Pretty, nameType, everyDefinedSymbol[..i], name, checkCase)
        invariant Collected(symsTyped, Typed, nameType, everyDefinedSymbol[..i], name, checkCase)
      {
        var sym := everyDefinedSymbol[i];
        assert everyDefinedSymbol[..i + 1] == everyDefinedSymbol[..i] + [sym];
        assert sym in symbolAt;
        ghost var before := everyDefinedSymbol[..i];
        ghost var oldMangled, oldPretty, oldTyped := symsMangled, symsPretty, symsTyped;
        var hitMangled, hitPretty, hitTyped := false, false, false;
        if Mangled in nameType {
          hitMangled := PatternMatching.RegexEquiv(name, GetName(symbolAt[sym]), checkCase);
          if hitMangled {
            symsMangled := symsMangled + [sym];
          }
        }
        if Pretty in nameType {
          hitPretty := PatternMatching.RegexEquiv(name, symbolAt[sym].prettyName, checkCase);
          if hitPretty {
            symsPretty := symsPretty + [sym];
          }
        }
        if Typed in nameType {
          hitTyped := PatternMatching.RegexEquiv(name, symbolAt[sym].typedName, checkCase);
          if hitTyped {
            symsTyped := symsTyped + [sym];
          }
        }
        CollectedStep(oldMangled, Mangled, nameType, before, sym, hitMangled, name, checkCase);
        CollectedStep(oldPretty, Pretty, nameType, before, sym, hitPretty, name, checkCase);
        CollectedStep(oldTyped, Typed, nameType, before, sym, hitTyped, name, checkCase);
        i := i + 1;
      }
      assert everyDefinedSymbol[..i] == everyDefinedSymbol;
    }

    /** `xs` holds exactly the candidates under `scheme` when it is selected. */
    ghost predicate Candidates(xs: seq<Ptr>, scheme: Scheme, name: string, nameType: NameType,
                               isRegex: bool, checkCase: bool)
      reads this
    {
      forall x :: x in xs <==> scheme in nameType && InScheme(x, scheme, name, isRegex, checkCase)
    }

    /** In the exact branch, a selected scheme contributes its map's list
        under `name`, and an unselected one nothing. */
    lemma ExactCandidates(xs: seq<Ptr>, scheme: Scheme, name: string, nameType: NameType, checkCase: bool)
      requires xs == if scheme in nameType then Lookup(NameIndex(scheme), name) else []
      ensures Candidates(xs, scheme, name, nameType, false, checkCase)
    {
    }

    /** In the pattern branch, the scan's lists are the candidates. */
    lemma PatternCandidates(xs: seq<Ptr>, scheme: Scheme, name: string, nameType: NameType, checkCase: bool)
      requires Collected(xs, scheme, nameType, everyDefinedSymbol, name, checkCase)
      ensures Candidates(xs, scheme, name, nameType, true, checkCase)
    {
    }

    /** Filtering the three candidate lists by type and concatenating them
        gives exactly the hits. */
    lemma MergedCandidatesAreHits(symsMangled: seq<Ptr>, symsPretty: seq<Ptr>, symsTyped: seq<Ptr>,
                                  name: string, sType: SymbolType, nameType: NameType,
                                  isRegex: bool, checkCase: bool)
      requires Candidates(symsMangled, Mangled, name, nameType, isRegex, checkCase)
      requires Candidates(symsPretty, Pretty, name, nameType, isRegex, checkCase)
      requires Candidates(symsTyped, Typed, name, nameType, isRegex, checkCase)
      ensures forall x :: x in KeepOfType(symsMangled, symbolAt, sType)
                          + KeepOfType(symsPretty, symbolAt, sType)
                          + KeepOfType(symsTyped, symbolAt, sType)
                <==> Hit(x, name, sType, nameType, isRegex, checkCase)
    {
      KeepOfTypeMembers(symsMangled, symbolAt, sType);
      KeepOfTypeMembers(symsPretty, symbolAt, sType);
      KeepOfTypeMembers(symsTyped, symbolAt, sType);
    }

    /** `findSymbolByType`: appends to `ret`, once each and in ascending
        handle order, every symbol listed under `name` (or, for a pattern,
        every defined symbol whose name matches) in the selected name maps
        that has type `sType`. */
    method FindSymbolByType(ret: seq<Ptr>, name: string, sType: SymbolType, nameType: NameType,
                            isRegex: bool, checkCase: bool)
      returns (out: seq<Ptr>, status: Status)
      requires SymbolsValid()
      ensures |out| >= |ret| && out[..|ret|] == ret
      ensures StrictlyIncreasing(out[|ret|..])
      ensures forall x :: x in out[|ret|..] <==> Hit(x, name, sType, nameType, isRegex, checkCase)
      ensures forall x :: x in out[|ret|..] ==> x in symbolAt && (sType == ST_UNKNOWN || symbolAt[x].symType == sType)
      ensures status == Found <==> |out| > |ret|
      ensures status != Found ==> status == NotFound(NoSuchSymbol)
    {
      var symsMangled: seq<Ptr> := [];
      var symsPretty: seq<Ptr> := [];
      var symsTyped: seq<Ptr> := [];

      if !isRegex {
        if Mangled in nameType {
          symsMangled := Lookup(symsByMangledName, name);
        }
        if Pretty in nameType {
          symsPretty := Lookup(symsByPrettyName, name);
        }
        if Typed in nameType {
          symsTyped := Lookup(symsByTypedName, name);
        }
        ExactCandidates(symsMangled, Mangled, name, nameType, checkCase);
        ExactCandidates(symsPretty, Pretty, name, nameType, checkCase);
        ExactCandidates(symsTyped, Typed, name, nameType, checkCase);
      } else {
        symsMangled, symsPretty, symsTyped := MatchAllSchemes(name, nameType, checkCase);
        PatternCandidates(symsMangled, Mangled, name, nameType, checkCase);
        PatternCandidates(symsPretty, Pretty, name, nameType, checkCase);
        PatternCandidates(symsTyped, Typed, name, nameType, checkCase);
      }

      var allSyms: seq<Ptr> := [];
      allSyms := AppendOfType(allSyms, symsMangled, sType);
      allSyms := AppendOfType(allSyms, symsPretty, sType);
      allSyms := AppendOfType(allSyms, symsTyped, sType);

      MergedCandidatesAreHits(symsMangled, symsPretty, symsTyped, name, sType, nameType, isRegex, checkCase);

      var unique := SortUnique(allSyms);
      out := ret + unique;
      assert out[..|ret|] == ret && out[|ret|..] == unique;
      if |out| == |ret| {
        status := NotFound(NoSuchSymbol);
      } else {
        status := Found;
      }
    }

    /** `findFunctionsByName`: the functions of the matching function
        symbols, appended once each in ascending handle order.  Every such
        symbol must have its function set. */
    method FindFunctionsByName(ret: seq<Ptr>, name: string, nameType: NameType,
                               isRegex: bool, checkCase: bool)
      returns (out: seq<Ptr>, status: Status)
      requires SymbolsValid()
      requires forall x :: Hit(x, name, ST_FUNCTION, nameType, isRegex, checkCase) ==> symbolAt[x].func != Null
      ensures |out| >= |ret| && out[..|ret|] == ret
      ensures StrictlyIncreasing(out[|ret|..])
      ensures forall f :: f in out[|ret|..] <==>
                exists x :: Hit(x, name, ST_FUNCTION, nameType, isRegex, checkCase) && symbolAt[x].func == f
      ensures forall f :: f in out[|ret|..] ==> f != Null
      ensures status == Found <==> |out| > |ret|
      ensures status != Found ==> status == NotFound(NoSuchSymbol)
    {
      var funcSyms, st := FindSymbolByType([], name, ST_FUNCTION, nameType, isRegex, checkCase);
      if st != Found {
        return ret, st;
      }
      assert funcSyms[0..] == funcSyms;
      var unsortedFuncs: seq<Ptr> := [];
      for i := 0 to |funcSyms|
        invariant |unsortedFuncs| == i
        invariant forall k :: 0 <= k < i ==> unsortedFuncs[k] == symbolAt[funcSyms[k]].func
      {
        unsortedFuncs := unsortedFuncs + [symbolAt[funcSyms[i]].func];
      }
      var unique := SortUnique(unsortedFuncs);
      out := ret + unique;
      assert out[..|ret|] == ret && out[|ret|..] == unique;
      forall f
        ensures f in unique <==>
          exists x :: Hit(x, name, ST_FUNCTION, nameType, isRegex, checkCase) && symbolAt[x].func == f
      {
        if f in unique {
          var k :| 0 <= k < |unsortedFuncs| && unsortedFuncs[k] == f;
          assert funcSyms[k] in funcSyms;
        }
        if exists x :: Hit(x, name, ST_FUNCTION, nameType, isRegex, checkCase) && symbolAt[x].func == f {
          var x :| Hit(x, name, ST_FUNCTION, nameType, isRegex, checkCase) && symbolAt[x].func == f;
          var k :| 0 <= k < |funcSyms| && funcSyms[k] == x;
          assert unsortedFuncs[k] == f;
        }
      }
      assert unsortedFuncs[0] in unique;
      status := Found;
    }

    /** `findVariablesByName`: the variables of the matching object symbols,
        appended once each in ascending handle order.  A symbol without a
        variable contributes `Null`, as the source pushes the null pointer. */
    method FindVariablesByName(ret: seq<Ptr>, name: string, nameType: NameType,
                               isRegex: bool, checkCase: bool)
      returns (out: seq<Ptr>, status: Status)
      requires SymbolsValid()
      ensures |out| >= |ret| && out[..|ret|] == ret
      ensures StrictlyIncreasing(out[|ret|..])
      ensures forall v :: v in out[|ret|..] <==>
                exists x :: Hit(x, name, ST_OBJECT, nameType, isRegex, checkCase) && symbolAt[x].variable == v
      ensures status == Found <==> |out| > |ret|
      ensures status != Found ==> status == NotFound(NoSuchSymbol)
    {
      var varSyms, st := FindSymbolByType([], name, ST_OBJECT, nameType, isRegex, checkCase);
      if st != Found {
        return ret, st;
      }
      assert varSyms[0..] == varSyms;
      var unsortedVars: seq<Ptr> := [];
      for i := 0 to |varSyms|
        invariant |unsortedVars| == i
        invariant forall k :: 0 <= k < i ==> unsortedVars[k] == symbolAt[varSyms[k]].variable
      {
        unsortedVars := unsortedVars + [symbolAt[varSyms[i]].variable];
      }
      var unique := SortUnique(unsortedVars);
      out := ret + unique;
      assert out[..|ret|] == ret && out[|ret|..] == unique;
      forall v
        ensures v in unique <==>
          exists x :: Hit(x, name, ST_OBJECT, nameType, isRegex, checkCase) && symbolAt[x].variable == v
      {
        if v in unique {
          var k :| 0 <= k < |unsortedVars| && unsortedVars[k] == v;
          assert varSyms[k] in varSyms;
        }
        if exists x :: Hit(x, name, ST_OBJECT, nameType, isRegex, checkCase) && symbolAt[x].variable == v {
          var x :| Hit(x, name, ST_OBJECT, nameType, isRegex, checkCase) && symbolAt[x].variable == v;
          var k :| 0 <= k < |varSyms| && varSyms[k] == x;
          assert unsortedVars[k] == v;
        }
      }
      assert unsortedVars[0] in unique;
      status := Found;
    }

    /** `getAllUndefinedSymbols`: appends every undefined dynamic symbol. */
    method GetAllUndefinedSymbols(ret: seq<Ptr>) returns (out: seq<Ptr>, status: Status)
      ensures out == ret + Flatten(undefDynSyms)
      ensures status == Found <==> |out| > |ret|
      ensures status != Found ==> status == NotFound(NoSuchSymbol)
    {
      out := ret;
      for k := 0 to |undefDynSyms|
        invariant out == ret + Flatten(undefDynSyms[..k])
      {
        var syms := undefDynSyms[k].1;
        for j := 0 to |syms|
          invariant out == ret + Flatten(undefDynSyms[..k]) + syms[..j]
        {
          out := out + [syms[j]];
          assert syms[..j + 1] == syms[..j] + [syms[j]];
        }
        assert syms[..|syms|] == syms;
        FlattenSnoc(undefDynSyms[..k], undefDynSyms[k]);
        assert undefDynSyms[..k + 1] == undefDynSyms[..k] + [undefDynSyms[k]];
      }
      assert undefDynSyms[..|undefDynSyms|] == undefDynSyms;
      if |out| > |ret| {
        status := Found;
      } else {
        status := NotFound(NoSuchSymbol);
      }
    }

    /** `getAllSymbols`: the vector is replaced by the defined symbols
        followed by the undefined ones. */
    method GetAllSymbols() returns (out: seq<Ptr>, status: Status)
      ensures out == everyDefinedSymbol + Flatten(undefDynSyms)
      ensures status == Found <==> |out| > 0
      ensures status != Found ==> status == NotFound(NoSuchSymbol)
    {
      out := everyDefinedSymbol;
      var temp, _ := GetAllUndefinedSymbols([]);
      for i := 0 to |temp|
        invariant out == everyDefinedSymbol + temp[..i]
      {
        out := out + [temp[i]];
        assert temp[..i + 1] == temp[..i] + [temp[i]];
      }
      assert temp[..|temp|] == temp;
      if |out| > 0 {
        status := Found;
      } else {
        status := NotFound(NoSuchSymbol);
      }
    }

    /** `getAllSymbolsByType`: for `ST_UNKNOWN` the vector is REPLACED by all
        symbols; for any other type the defined and then the undefined
        symbols of that type are appended to it. */
    method GetAllSymbolsByType(ret: seq<Ptr>, sType: SymbolType) returns (out: seq<Ptr>, status: Status)
      requires SymbolsValid()
      ensures sType == ST_UNKNOWN ==> out == everyDefinedSymbol + Flatten(undefDynSyms)
      ensures sType == ST_UNKNOWN ==> (status == Found <==> |out| > 0)
      ensures sType != ST_UNKNOWN ==>
        out == ret + KeepOfType(everyDefinedSymbol, symbolAt, sType)
                   + KeepOfType(Flatten(undefDynSyms), symbolAt, sType)
      ensures sType != ST_UNKNOWN ==> (status == Found <==> |out| > |ret|)
      ensures status != Found ==> status == NotFound(NoSuchSymbol)
    {
      if sType == ST_UNKNOWN {
        out, status := GetAllSymbols();
        return;
      }
      out := AppendOfType(ret, everyDefinedSymbol, sType);
      var temp, _ := GetAllUndefinedSymbols([]);
      assert temp == Flatten(undefDynSyms);
      assert AllIn(Flatten(undefDynSyms), symbolAt) by {
        FlattenAllIn(undefDynSyms);
      }
      out := AppendOfType(out, temp, sType);
      if |out| > |ret| {
        status := Found;
      } else {
        status := NotFound(NoSuchSymbol);
      }
    }

    lemma {:induction false} FlattenAllIn(entries: seq<(string, seq<Ptr>)>)
      requires forall k :: 0 <= k < |entries| ==> AllIn(entries[k].1, symbolAt)
      ensures AllIn(Flatten(entries), symbolAt)
    {
      if entries != [] {
        assert forall k :: 0 <= k < |entries[1..]| ==> entries[1..][k] == entries[k + 1];
        FlattenAllIn(entries[1..]);
      }
    }

    /** `findFuncByEntryOffset`: the function whose entry is exactly `entry`. */
    method FindFuncByEntryOffset(entry: nat) returns (r: Result<Ptr>)
      requires FunctionsValid()
      ensures r.Ok? <==> entry in funcsByOffset
      ensures r.Ok? ==> r.value == funcsByOffset[entry] && r.value in functionAt && Address(r.value) == entry
      ensures r.Err? ==> r.error == NoSuchFunction
    {
      if entry in funcsByOffset {
        return Ok(funcsByOffset[entry]);
      }
      return Err(NoSuchFunction);
    }

    /** `findVariableByOffset`: the variable at exactly `offset`. */
    method FindVariableByOffset(offset: nat) returns (r: Result<Ptr>)
      ensures r.Ok? <==> offset in varsByOffset
      ensures r.Ok? ==> r.value == varsByOffset[offset]
      ensures r.Err? ==> r.error == NoSuchVariable
    {
      if offset in varsByOffset {
        return Ok(varsByOffset[offset]);
      }
      return Err(NoSuchVariable);
    }

    /** `findModuleByOffset`: the first module whose address is `off`.  No
        error code is recorded on a miss. */
    method FindModuleByOffset(off: nat) returns (r: Option<Ptr>)
      requires ModulesValid()
      ensures r.Some? ==> exists i :: 0 <= i < |mods| && mods[i] == r.value && moduleAt[mods[i]].addr == off
                            && forall j :: 0 <= j < i ==> moduleAt[mods[j]].addr != off
      ensures r.None? <==> forall m :: m in mods ==> moduleAt[m].addr != off
    {
      for i := 0 to |mods|
        invariant forall j :: 0 <= j < i ==> moduleAt[mods[j]].addr != off
      {
        var m := mods[i];
        if off == moduleAt[m].addr {
          return Some(m);
        }
      }
      return None;
    }

    /** `findModuleByName`: the file-name index first, then the full-name index. */
    method FindModuleByName(name: string) returns (r: Result<Ptr>)
      requires ModulesValid()
      ensures name in modsByFileName ==> r == Ok(modsByFileName[name])
      ensures name !in modsByFileName && name in modsByFullName ==> r == Ok(modsByFullName[name])
      ensures r.Err? <==> name !in modsByFileName && name !in modsByFullName
      ensures r.Err? ==> r.error == NoSuchModule
      ensures r.Ok? ==> r.value in moduleAt && (moduleAt[r.value].fileName == name || moduleAt[r.value].fullName == name)
    {
      if name in modsByFileName {
        return Ok(modsByFileName[name]);
      }
      if name in modsByFullName {
        return Ok(modsByFullName[name]);
      }
      return Err(NoSuchModule);
    }

    /** `findRegion`: the first region named `secName`. */
    method FindRegion(secName: string) returns (r: Result<Ptr>)
      requires RegionsValid()
      ensures r.Ok? ==> exists i :: 0 <= i < |regions| && regions[i] == r.value && regionAt[regions[i]].name == secName
                          && forall j :: 0 <= j < i ==> regionAt[regions[j]].name != secName
      ensures r.Err? <==> forall x :: x in regions ==> regionAt[x].name != secName
      ensures r.Err? ==> r.error == NoSuchRegion
    {
      for index := 0 to |regions|
        invariant forall j :: 0 <= j < index ==> regionAt[regions[j]].name != secName
      {
        if regionAt[regions[index]].name == secName {
          return Ok(regions[index]);
        }
      }
      return Err(NoSuchRegion);
    }

    /** One linear pass of the overlap fallback: the first enclosing region. */
    method ScanRegions(rs: seq<Ptr>, where: nat) returns (r: Option<Ptr>)
      requires AllIn(rs, regionAt)
      ensures r == FirstEnclosing(rs, regionAt, where)
    {
      for rIdx := 0 to |rs|
        invariant FirstEnclosing(rs, regionAt, where) == FirstEnclosing(rs[rIdx..], regionAt, where)
      {
        assert rs[rIdx..][1..] == rs[rIdx + 1..];
        if where >= regionAt[rs[rIdx]].regionAddr
           && where < regionAt[rs[rIdx]].regionAddr + regionAt[rs[rIdx]].memSize {
          return Some(rs[rIdx]);
        }
      }
      return None;
    }

    /** What the overlap fallback finds: a code region, else a data region,
        else any region. */
    function PrioritizedEnclosing(where: nat): Option<Ptr>
      reads this
      requires RegionsValid()
    {
      var c := FirstEnclosing(codeRegions, regionAt, where);
      if c.Some? then c
      else
        var d := FirstEnclosing(dataRegions, regionAt, where);
        if d.Some? then d else FirstEnclosing(regions, regionAt, where)
    }

    /** `findEnclosingRegion`: the region whose half-open span holds `where`.
        `regionsMayOverlap` selects the build for object formats whose regions
        may overlap at address 0, which scans linearly instead of bisecting. */
    method FindEnclosingRegion(where: nat, regionsMayOverlap: bool) returns (r: Option<Ptr>)
      requires RegionsValid()
      ensures r.Some? ==> r.value in regions && Encloses(regionAt[r.value], where)
      ensures regions == [] ==> r.None?
      ensures regionsMayOverlap ==> r == PrioritizedEnclosing(where)
      ensures !regionsMayOverlap && SortedDisjoint(regions, regionAt) ==>
                (r.None? <==> forall x :: x in regions ==> !Encloses(regionAt[x], where))
    {
      if regionsMayOverlap {
        r := ScanRegions(codeRegions, where);
        if r.Some? {
          return;
        }
        r := ScanRegions(dataRegions, where);
        if r.Some? {
          return;
        }
        r := ScanRegions(regions, where);
        return;
      }
      var first: int := 0;
      var last: int := |regions| - 1;
      while last >= first
        invariant 0 <= first <= last + 1 <= |regions|
        invariant SortedDisjoint(regions, regionAt) ==>
          forall k :: 0 <= k < |regions| && (k < first || k > last) ==> !Encloses(regionAt[regions[k]], where)
        decreases last - first
      {
        var mid := (first + last) / 2;
        var curreg := regions[mid];
        if where >= regionAt[curreg].regionAddr
           && where < regionAt[curreg].regionAddr + regionAt[curreg].memSize {
          return Some(curreg);
        } else if where < regionAt[curreg].regionAddr {
          last := mid - 1;
        } else {
          first := mid + 1;
        }
      }
      return None;
    }

    /** `findCatchBlock`: a bisection over the catch starts that gives up as
        soon as the midpoint repeats. */
    method FindCatchBlock(addr: nat, size: nat) returns (r: Option<ExceptionBlock>)
      ensures |excpBlocks| == 0 ==> r.None?
      ensures r.Some? ==> r.value in excpBlocks && CatchCovers(r.value.catchStart, addr, size)
      ensures SortedByCatchStart(excpBlocks) && (exists i :: 0 <= i < |excpBlocks| && excpBlocks[i].catchStart == addr)
              ==> r.Some?
      ensures SortedByCatchStart(excpBlocks) && size == 0 ==>
                (r.Some? <==> exists i :: 0 <= i < |excpBlocks| && excpBlocks[i].catchStart == addr)
    {
      ghost var target := SortedByCatchStart(excpBlocks)
        && exists i :: 0 <= i < |excpBlocks| && excpBlocks[i].catchStart == addr;
      var min: int := 0;
      var max: int := |excpBlocks|;
      var cur: int := -1;
      var lastCur: int;

      if max == 0 {
        return None;
      }

      while true
        invariant 0 <= min <= max <= |excpBlocks|
        invariant cur == -1 || cur == min || cur == max
        invariant min == max ==> cur == min
        invariant target ==> exists i :: min <= i < max && i != cur && excpBlocks[i].catchStart == addr
        decreases 2 * (max - min) + (if cur == (min + max) / 2 then 0 else 1)
      {
        lastCur := cur;
        cur := (min + max) / 2;

        if lastCur == cur {
          return None;
        }

        var curAddr := excpBlocks[cur].catchStart;
        if (curAddr <= addr && curAddr + size > addr) || (size == 0 && curAddr == addr) {
          return Some(excpBlocks[cur]);
        }
        if addr < curAddr {
          max := cur;
        } else if addr > curAddr {
          min := cur;
        }
      }
    }

    /** `getNearestFunction`: for a code address, sorts the function vector
        by address on first use and bisects it for the function with the
        greatest entry at or below `offset`.  The function's size is never
        consulted, so the offset may lie past its end. */
    method GetNearestFunction(offset: nat, isCode: bool) returns (r: Option<Ptr>)
      requires FunctionsValid()
      requires isCode ==> |everyFunction| > 0
      modifies this`everyFunction, this`sortedEveryFunction
      ensures FunctionsValid()
      ensures !isCode ==> r.None? && everyFunction == old(everyFunction)
                          && sortedEveryFunction == old(sortedEveryFunction)
      ensures isCode ==> sortedEveryFunction
      ensures isCode ==> everyFunction == if old(sortedEveryFunction) then old(everyFunction)
                                          else SortByAddress(old(everyFunction), functionAt)
      ensures multiset(everyFunction) == multiset(old(everyFunction))
      ensures r.Some? ==> r.value in everyFunction && Address(r.value) <= offset
      ensures r.Some? ==> forall g :: g in everyFunction && Address(g) <= offset ==> Address(g) <= Address(r.value)
      ensures isCode ==> (r.Some? <==> exists g :: g in everyFunction && Address(g) <= offset)
      ensures isCode ==> r == NearestBisection(everyFunction, functionAt, offset, 0, |everyFunction|, |everyFunction| + 1)
    {
      if !isCode {
        return None;
      }
      if |everyFunction| > 0 && !sortedEveryFunction {
        everyFunction := SortByAddress(everyFunction, functionAt);
        sortedEveryFunction := true;
      }

      r := BisectNearest(offset);
    }

    /** The bisection of `getNearestFunction` over the sorted function vector:
        the midpoint moves until it repeats, and the last low end is the
        answer when it starts at or below `offset` and its successor above. */
    method BisectNearest(offset: nat) returns (r: Option<Ptr>)
      requires FunctionsValid() && sortedEveryFunction && |everyFunction| > 0
      ensures r.Some? ==> r.value in everyFunction && Address(r.value) <= offset
      ensures r.Some? ==> forall g :: g in everyFunction && Address(g) <= offset ==> Address(g) <= Address(r.value)
      ensures r.Some? <==> exists g :: g in everyFunction && Address(g) <= offset
      ensures r == NearestBisection(everyFunction, functionAt, offset, 0, |everyFunction|, |everyFunction| + 1)
    {
      var n := |everyFunction|;
      var low := 0;
      var high := n;
      var lastMid := high + 1;
      var mid: int;
      while true
        invariant 0 <= low < n && low <= high <= n
        invariant lastMid == n + 1 || lastMid == low || lastMid == high
        invariant low == high ==> lastMid == low
        invariant low == 0 || Address(everyFunction[low]) <= offset
        invariant forall j :: high <= j < n ==> Address(everyFunction[j]) > offset
        invariant NearestBisection(everyFunction, functionAt, offset, low, high, lastMid)
               == NearestBisection(everyFunction, functionAt, offset, 0, n, n + 1)
        decreases 2 * (high - low) + (if (low + high) / 2 == lastMid then 0 else 1)
      {
        mid := (low + high) / 2;
        if lastMid == mid {
          break;
        }
        lastMid := mid;
        var cur := Address(everyFunction[mid]);
        if cur > offset {
          high := mid;
          continue;
        }
        if cur < offset {
          low := mid;
          continue;
        }
        if cur == offset {
          return Some(everyFunction[mid]);
        }
      }

      if Address(everyFunction[low]) <= offset
         && (low + 1 == n || Address(everyFunction[low + 1]) > offset) {
        r := Some(everyFunction[low]);
        NearestIsGreatest(low, offset);
        return;
      }
      assert Address(everyFunction[0]) > offset;
      forall g | g in everyFunction ensures Address(g) > offset {
        var j :| 0 <= j < n && everyFunction[j] == g;
      }
      return None;
    }

    /** Asking twice in a row gives the same answer: the second call finds the
        vector already sorted, leaves it alone, and bisects it the same way to
        the same function (or none again). */
    method NearestFunctionTwice(offset: nat) returns (r1: Option<Ptr>, r2: Option<Ptr>)
      requires FunctionsValid() && |everyFunction| > 0
      modifies this`everyFunction, this`sortedEveryFunction
      ensures r1 == r2
      ensures everyFunction == old(if sortedEveryFunction then everyFunction
                                   else SortByAddress(everyFunction, functionAt))
    {
      r1 := GetNearestFunction(offset, true);
      ghost var sorted := everyFunction;
      r2 := GetNearestFunction(offset, true);
      assert everyFunction == sorted;
    }

    /** In a sorted vector, an entry at or below `offset` whose successors all
        start above it is the greatest entry at or below `offset`. */
    lemma NearestIsGreatest(k: nat, offset: nat)
      requires FunctionsValid() && sortedEveryFunction
      requires k < |everyFunction| && Address(everyFunction[k]) <= offset
      requires forall j :: k < j < |everyFunction| ==> Address(everyFunction[j]) > offset
      ensures forall g :: g in everyFunction && Address(g) <= offset ==> Address(g) <= Address(everyFunction[k])
    {
      forall g | g in everyFunction && Address(g) <= offset
        ensures Address(g) <= Address(everyFunction[k])
      {
        var j :| 0 <= j < |everyFunction| && everyFunction[j] == g;
      }
    }
  }
}

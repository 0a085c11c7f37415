# Symbol-table query layer, modelled in Dafny

This project models the query layer of the symtabAPI symbol table. Once an
object-file parser has filled the table, this layer answers queries over it:

- symbols by name, exact or by wildcard pattern, under the mangled, pretty
  and typed name forms, filtered by symbol type and de-duplicated;
- the functions and variables behind those symbols;
- listings of all symbols, of the undefined dynamic symbols, and of all
  symbols of one type;
- functions, variables and modules by address, and modules and regions by name;
- three hand-written binary searches:
  - the catch block whose span holds an address;
  - the region enclosing an address;
  - the function with the greatest entry at or below an address. This search
    sorts the function vector in place on first use.

It also models the `Symbol` value type (its blank constructor and its
field-wise `operator==`) and the process-control `EventType` value with its
`eventtype_cmp` order.

Modules:

- `PatternMatching` (pattern_match.dfy) is the wildcard matcher. It has two
  defining predicates: `Matches` is what the code does, and `Glob` is
  what its comment promises. `PatternMatch` is the loop as written and
  `PatternMatchCorrected` is the loop as intended; each is proved equal to its
  predicate.
- `Symbols` (symbol.dfy) is `Symbol`, `SymbolType`, the blank constructor,
  `operator==` and `getName`.
- `EventTypes` (event_type.dfy) is `EventType`, its codes, constructors,
  accessors and `eventtype_cmp`.
- `Entities` (entities.dfy) holds the functions, modules, regions and
  exception blocks as far as the lookups read them, plus the outcome types.
  The global error variable `serr` becomes a returned `Status` or `Result`
  error.
- `Ordering` (ordering.dfy) holds the two sorts the lookups use. `SortUnique`
  is sort by pointer followed by `std::unique`. `SortByAddress` is sort by
  function address.
- `SymtabLookup` (symtab.dfy) is the class `Symtab`. Its fields are the
  table's indices. Its methods are the lookups.

Symbols, functions, variables, modules and regions are arena handles
(`Ptr = nat`). The entities themselves live in maps inside `Symtab`
(`symbolAt`, `functionAt`, `moduleAt`, `regionAt`). `Null` (0) is the null
pointer, and ordering pointers means ordering handles. A "null" result of a
lookup is `None` or an `Err`.

Three points where the model follows the code rather than its comments:

- The comment above the matcher (Symtab-lookup.C:559-563) says that `*`
  matches zero or more characters. After a `*` that does not end the
  pattern, the code never tries the empty remainder of the name (see
  Findings). The pattern lookups use the matcher as written; the corrected
  matcher is modelled beside it, and the two agree on every pattern without
  two adjacent `*`s.
- With several functions at the same address, the nearest-function bisection
  returns whichever of them it lands on. The model pins the result to the
  bisection's own steps (`NearestBisection`) and proves that it has the
  greatest address at or below the offset. The returned function's successor
  may share its address. Which of the tied functions that is depends on their
  order after `std::sort`, which the source leaves open; the model fixes it by
  sorting stably (see Left out).
- The doc comment of `findCatchBlock` (Symtab-lookup.C:427-430) speaks of the
  range from `addr` to `addr + size` containing a catch block. The test at
  lines 450-451 instead asks whether `addr` lies in
  `[catchStart, catchStart + size)`, that is, whether the block starts in
  `(addr - size, addr]`. The model follows the test.

## Model

| member | source | states |
|---|---|---|
| PatternMatching.PatternMatch | symtabAPI/src/Symtab-lookup.C:566-615 | the loop with its recursion on `*` decides exactly `Matches`: anchored at both ends, with `?` taking one character, case folding limited to ASCII letters, and only the non-empty remainders tried after an inner `*` |
| PatternMatching.PatternMatchCorrected | symtabAPI/src/Symtab-lookup.C:559-615 | the same loop, also trying the empty remainder after `*`, decides exactly `Glob`, where `*` is any run of characters, including none |
| PatternMatching.TryRemaindersAsWritten | symtabAPI/src/Symtab-lookup.C:583-588 | the loop after an inner `*` succeeds if and only if the rest of the pattern matches some non-empty remainder of the name |
| PatternMatching.TryRemainders | symtabAPI/src/Symtab-lookup.C:559-563 | the corrected loop succeeds if and only if the rest of the pattern matches some remainder of the name, the empty one included |
| PatternMatching.LiteralStep | symtabAPI/src/Symtab-lookup.C:591-610 | a literal or `?` matches if and only if a name character remains, that character matches, and the rest matches the rest |
| PatternMatching.RegexEquiv | symtabAPI/src/Symtab-lookup.C:549-557 | a pattern query on a name is decided by the matcher as written (`Matches`), with the pattern first and the name second |
| PatternMatching.EmptyPatternMatchesOnlyEmpty | symtabAPI/src/Symtab-lookup.C:571-573 | an empty pattern matches the empty name and no other, in both definitions |
| PatternMatching.TrailingStarAcceptsRest | symtabAPI/src/Symtab-lookup.C:575-588 | if a pattern matches a name, then that pattern followed by `*` matches the name extended by any suffix |
| PatternMatching.TrailingStarAsWritten | symtabAPI/src/Symtab-lookup.C:576-581 | the same holds for the code as written, provided the pattern does not already end in `*` |
| PatternMatching.QuestionConsumesOne | symtabAPI/src/Symtab-lookup.C:591-598 | a leading `?` fails on an empty name and otherwise consumes exactly one character, in both definitions |
| PatternMatching.SingleQuestionMatchesSingleChars | symtabAPI/src/Symtab-lookup.C:591-610 | the pattern `?` matches exactly the one-character names |
| PatternMatching.CaseSensitiveLiteral | symtabAPI/src/Symtab-lookup.C:596-598 | with `checkCase` set, a literal character matches only itself |
| PatternMatching.CaseInsensitiveLiteral | symtabAPI/src/Symtab-lookup.C:596-604 | without `checkCase`, a literal matches itself or its other-case ASCII letter, and a non-letter matches only itself |
| PatternMatching.CaseSensitiveImpliesInsensitive | symtabAPI/src/Symtab-lookup.C:596-604 | every name matched case-sensitively is also matched without `checkCase`, both as written and as intended |
| PatternMatching.StarsMatchEverything | symtabAPI/src/Symtab-lookup.C:559-563 | under the intended semantics, a non-empty pattern made only of `*`s matches every name |
| PatternMatching.StarsAsWritten | symtabAPI/src/Symtab-lookup.C:576-588 | as written, such a pattern matches a name if and only if it is a single `*` or the name is non-empty |
| PatternMatching.MatchesIsSound | symtabAPI/src/Symtab-lookup.C:566-615 | every name the code accepts is also accepted under the intended semantics |
| PatternMatching.GlobEmptyNeedsStar | symtabAPI/src/Symtab-lookup.C:591-593 | a non-empty pattern that does not start with `*` rejects the empty name |
| PatternMatching.AgreeWithoutDoubleStar | symtabAPI/src/Symtab-lookup.C:583-588 | on patterns without two adjacent `*`s, the code and the intended semantics agree on every name, in both directions |
| PatternMatching.DoubleStarMissesEmptyRemainder | symtabAPI/src/Symtab-lookup.C:583-588 | `a**` does not match `a` as written, but does match it under the intended semantics |
| Symbols.BlankSymbol | symtabAPI/h/Symbol.h:229-236 | the blank symbol has unknown type, linkage and tag, address 0, size 0, null module, region and return type, and empty names; it is in the static table, not in the dynamic one, and not absolute |
| Symbols.GetName | symtabAPI/h/Symbol.h:157 | `getName` is the mangled name |
| Symbols.SymbolEqIsEquivalence | symtabAPI/h/Symbol.h:249-269 | `operator==` is reflexive, symmetric and transitive |
| Symbols.SymbolEqIgnores | symtabAPI/h/Symbol.h:203-222 | symbols that differ only in function, variable, tag, frame-pointer register, file name or version names compare equal |
| Symbols.SymbolEqDistinguishes | symtabAPI/h/Symbol.h:252-268 | symbols that differ in any of the three names, the address, the type or the size compare unequal |
| Symbols.BlankSymbolsCompareEqual | symtabAPI/h/Symbol.h:229-236 | two blank symbols compare equal, whatever their uninitialised fields hold |
| EventTypes.DefaultEvent | proccontrol/h/EventType.h:62 | the default event has code `Unset` and time `None` |
| EventTypes.EventOfCode | proccontrol/h/EventType.h:60 | an event built from a code alone has that code and time `Any` |
| EventTypes.EventAt | proccontrol/h/EventType.h:57-61 | an event built from a time and a code returns exactly those from `code()` and `time()` |
| EventTypes.TimeValueInjective | proccontrol/h/EventType.h:50-55 | distinct times have distinct integer values |
| EventTypes.EventTypeLessIrreflexive | proccontrol/h/EventType.h:72-79 | no event is less than itself |
| EventTypes.EventTypeLessByCodeFirst | proccontrol/h/EventType.h:74-77 | a smaller code makes an event less, whatever the times, and never greater |
| EventTypes.EventTypeLessIsStrictTotalOrder | proccontrol/h/EventType.h:72-79 | `eventtype_cmp` is asymmetric and transitive, and of two distinct events one is less |
| EventTypes.InternalCodesInRange | proccontrol/h/EventType.h:10-47 | the internal codes start at `InternalEvents` (= `BreakpointClear`) and lie below `MaxProcCtrlEvent`; every other code the header names, from `Error` to `Library` and `Terminate` and `ThreadCreate`, lies below `InternalEvents` |
| Entities.ZeroSizeCatchIsExactStart | symtabAPI/src/Symtab-lookup.C:450-451 | a zero-sized catch query hits a block exactly when it names the block's start |
| Ordering.SortUnique | symtabAPI/src/Symtab-lookup.C:129-132 | sorting by pointer and then `std::unique` leaves each input handle exactly once, in strictly ascending order |
| Ordering.StrictlyIncreasingUnique | symtabAPI/src/Symtab-lookup.C:129-132 | two strictly ascending handle vectors with the same elements are equal |
| Ordering.SortUniqueDependsOnlyOnElements | symtabAPI/src/Symtab-lookup.C:129-132 | the de-duplicated result depends only on which handles were collected, not on their order or repetition |
| Ordering.SortByAddress | symtabAPI/src/Symtab-lookup.C:632-637 | sorting the function vector by address yields a permutation of it that is sorted by address |
| SymtabLookup.Symtab.MatchAllSchemes | symtabAPI/src/Symtab-lookup.C:92-109 | the pattern scan collects, for each selected name form, exactly the defined symbols whose name in that form the matcher as written accepts |
| SymtabLookup.Symtab.PatternHitAsIntended | symtabAPI/src/Symtab-lookup.C:549-563 | every name a pattern lookup accepts is also accepted by the intended matcher, and on patterns without two adjacent `*`s the lookups accept exactly the names the intended matcher accepts |
| SymtabLookup.Symtab.AppendOfType | symtabAPI/src/Symtab-lookup.C:113-127 | the type-filter loop appends exactly the handles of the given type, in their order, and `ST_UNKNOWN` keeps all of them |
| SymtabLookup.Symtab.MergedCandidatesAreHits | symtabAPI/src/Symtab-lookup.C:111-127 | concatenating the three filtered candidate lists collects exactly the symbols that are listed or matched under a selected form and have the requested type |
| SymtabLookup.Symtab.FindSymbolByType | symtabAPI/src/Symtab-lookup.C:70-141 | the old contents of `ret` stay in front; the appended part is strictly ascending, so it holds no duplicates; a symbol is appended if and only if a selected name map lists it under `name` (or, for a pattern, it is a defined symbol whose name in a selected form the matcher as written accepts), and its type is `sType` unless `sType` is `ST_UNKNOWN`; success if and only if something was appended, otherwise `No_Such_Symbol` |
| SymtabLookup.Symtab.FindFunctionsByName | symtabAPI/src/Symtab-lookup.C:225-246 | appends, strictly ascending, exactly the functions of the function symbols that `findSymbolByType` reports (pattern names decided by the matcher as written), none of them null; success if and only if something was appended, and a failed symbol search is passed on |
| SymtabLookup.Symtab.FindVariablesByName | symtabAPI/src/Symtab-lookup.C:266-286 | appends, strictly ascending, exactly the variables of the object symbols that `findSymbolByType` reports (pattern names decided by the matcher as written), null included; success if and only if something was appended |
| SymtabLookup.Symtab.GetAllUndefinedSymbols | symtabAPI/src/Symtab-lookup.C:198-209 | appends every undefined dynamic symbol, entry by entry in map order; success if and only if the vector grew |
| SymtabLookup.Symtab.GetAllSymbols | symtabAPI/src/Symtab-lookup.C:143-158 | replaces the vector by the defined symbols followed by the undefined ones; success if and only if the result is non-empty |
| SymtabLookup.Symtab.GetAllSymbolsByType | symtabAPI/src/Symtab-lookup.C:160-186 | for `ST_UNKNOWN`, behaves as `getAllSymbols` and drops the old contents; otherwise appends the defined and then the undefined symbols of that type, in order; success if and only if something was added |
| SymtabLookup.Symtab.FindFuncByEntryOffset | symtabAPI/src/Symtab-lookup.C:211-219 | found if and only if the entry offset is indexed, and the function found starts at that offset; otherwise `No_Such_Function` |
| SymtabLookup.Symtab.FindVariableByOffset | symtabAPI/src/Symtab-lookup.C:253-260 | found if and only if the offset is indexed, and the result is the indexed variable; otherwise `No_Such_Variable` |
| SymtabLookup.Symtab.FindModuleByOffset | symtabAPI/src/Symtab-lookup.C:306-320 | returns the first module in `_mods` whose address is `off`, and none if no module has it |
| SymtabLookup.Symtab.FindModuleByName | symtabAPI/src/Symtab-lookup.C:322-344 | the file-name index wins over the full-name index; the module found carries `name` as its file or full name; fails with `No_Such_Module` if and only if neither index has `name` |
| SymtabLookup.Symtab.FindRegion | symtabAPI/src/Symtab-lookup.C:530-542 | returns the first region named `secName`; fails with `No_Such_Region` if and only if no region has that name |
| SymtabLookup.FirstEnclosing | symtabAPI/src/Symtab-lookup.C:487-507 | the first region of a list whose half-open span holds the address; none if and only if no region of the list holds it |
| SymtabLookup.Symtab.ScanRegions | symtabAPI/src/Symtab-lookup.C:487-493 | one linear pass returns the first enclosing region of its list |
| SymtabLookup.Symtab.FindEnclosingRegion | symtabAPI/src/Symtab-lookup.C:483-528 | a result is a region whose half-open span holds `where`, so the end address is excluded; with no regions the result is null; in the overlap build, a code region is preferred, then a data region, then any region; for disjoint regions sorted by address, the bisection returns null only if no region holds `where` |
| SymtabLookup.Symtab.FindCatchBlock | symtabAPI/src/Symtab-lookup.C:431-462 | terminates and stays in bounds; fails on an empty table; a block found is one of the table's blocks, and either `addr` lies in `[catchStart, catchStart+size)` or the zero-sized query names its start; on a table sorted by catch start, a query at some block's catch start succeeds, and a zero-sized query succeeds only then |
| SymtabLookup.Symtab.GetNearestFunction | symtabAPI/src/Symtab-lookup.C:627-672 | returns nothing for a non-code offset and leaves the vector alone; otherwise the vector becomes its address-sorted permutation and the flag is set; a result is a function starting at or below `offset`, with no function starting at a greater address that is still at or below `offset`; a result exists if and only if some function starts at or below `offset`; the result is the one the bisection's steps reach; the function's size is not consulted |
| SymtabLookup.Symtab.BisectNearest | symtabAPI/src/Symtab-lookup.C:639-671 | on the sorted vector, the bisection that stops when the midpoint repeats finds a function with the greatest start at or below `offset`, and finds one if and only if such a function exists; the loop returns exactly what the step-by-step bisection `NearestBisection` reaches |
| SymtabLookup.Symtab.NearestIsGreatest | symtabAPI/src/Symtab-lookup.C:664-669 | in the sorted vector, an entry at or below `offset` whose successors all start above it has the greatest start at or below `offset` |
| SymtabLookup.Symtab.NearestFunctionTwice | symtabAPI/src/Symtab-lookup.C:627-672 | two calls in a row return the same function (or none both times), and the vector is sorted once: left alone if the flag was set, otherwise replaced by its address-sorted permutation |

## Left out

- `getAllNewRegions` reads an annotation and writes a message to stderr on failure. Annotations and I/O are not part of this model.
- `isCode(offset)` has no body here. It is the boolean parameter `isCode` of `GetNearestFunction`.
- The bisection in `getNearestFunction` reads `everyFunction[mid]` without checking that the vector is non-empty. The model requires a non-empty vector when `isCode` holds.
- The `os_aix` compile-time switch of `findEnclosingRegion` is the boolean parameter `regionsMayOverlap`.
- The model returns an outcome from each lookup and has no global error state. In the source, `getAllSymbols` (Symtab-lookup.C:150) and `getAllSymbolsByType` (:173) call `getAllUndefinedSymbols`, which sets `serr` to `No_Such_Symbol` when there are no undefined symbols (:207), even though the outer call then succeeds. The model drops that inner status together with the global.
- Reading a name map with `operator[]` inserts an empty entry for a missing name. The model reads a missing name as the empty list and does not add the entry.
- Addresses, offsets and sizes are unbounded naturals. The 64-bit `Offset` wrap-around in `curAddr + size` and `getRegionAddr() + getMemSize()` is not modelled.
- The `unsigned`/`int` index variables of the bisections are unbounded here. Vectors longer than 2^31 entries are not modelled.
- The matcher stops at the first NUL of a C string. Names and patterns here contain no NUL. Each `char` of a name or pattern stands for one byte of the C string, so `?` consumes one byte, not one Unicode character.
- `undefDynSyms` is a `std::map`. Its entries are modelled as a sequence in iteration order, without stating that the keys ascend.
- The source's simple listing accessors are not modelled: `getAllDefinedSymbols`, `getAllFunctions`, `getAllVariables`, `getAllModules`, `getAllRegions`, `getCodeRegions`, `getDataRegions` and `getAllExceptions`. Each copies a vector and reports whether it is non-empty.
- `findException` and `findRegionByEntry` are not modelled. `ExceptionBlock::contains` and the entry-address region index are not part of this model.
- Entities keep only the fields the lookups read: a function's address, a module's address and two names, a region's name and span, and an exception block's catch start.
- `Symbol` serialization, annotations, the version-name accessors, `operator<<`, the `LookupInterface` declarations and demangling are not modelled. Pretty and typed names are given strings.
- `EventType::name()` has no body here, and the rest of process control is not modelled.
- The invariants `SymbolsValid`, `FunctionsValid`, `ModulesValid` and `RegionsValid` are assumed of a table that the parser filled. They are not re-established by any loading code, because loading is not part of this model.
- Symtab.FindFunctionsByName: the source asserts at Symtab-lookup.C:233 that every function symbol found has its function set; in a build without assertions it would append a null function. The model turns that assertion into a precondition, and its "none of them null" rests on it.
- Symtab.GetNearestFunction: `std::sort` is not stable, so the source leaves open the order of functions that share an address, and with it which of them an exact hit returns. The model sorts with a stable insertion sort (`SortByAddress`), so its ensures fix that order and the function returned among equal addresses; what the source itself guarantees is only an address-sorted permutation, with a result at the greatest address at or below the offset. The same holds for the vector that `Symtab.NearestFunctionTwice` states.
- Symtab.FindVariableByOffset: does not state what the variable's own address is, because variables are not modelled as entities.
- Symtab.FindEnclosingRegion: the bisection's completeness is stated only for regions that are sorted by address and disjoint. The source assumes that layout without checking it.

## Findings

| source | as written | input that shows it | evidently intended | confidence | as-written member | corrected member |
|---|---|---|---|---|---|---|
| symtabAPI/src/Symtab-lookup.C:583-588 | after a `*` that does not end the pattern, the loop tries the rest of the pattern only against non-empty remainders of the name | pattern `a**` against name `a`: the second `*` meets the empty remainder, the loop never runs, and the match fails | `*` matches zero or more characters (comment at lines 559-563), so `a**` matches `a` | not executed | PatternMatching.DoubleStarMissesEmptyRemainder | PatternMatching.PatternMatchCorrected |

/** The `Symbol` value type of symtabAPI/h/Symbol.h.

    Pointers held by a symbol (its module, region, function, variable and
    return type) are arena handles: a `Ptr` names an entity stored elsewhere,
    and `Null` plays the part of the null pointer.  Comparing pointers is
    comparing handles. */
module Symbols {

  type Ptr = nat
  const Null: Ptr := 0

  datatype SymbolType = ST_UNKNOWN | ST_FUNCTION | ST_OBJECT | ST_MODULE | ST_NOTYPE

  datatype SymbolLinkage = SL_UNKNOWN | SL_GLOBAL | SL_LOCAL | SL_WEAK

  datatype SymbolTag = TAG_UNKNOWN | TAG_USER | TAG_LIBRARY | TAG_INTERNAL

  /** The fields of a symbol, in the order they are declared. */
  datatype Symbol = Symbol(
    owner: Ptr,
    symType: SymbolType,
    linkage: SymbolLinkage,
    addr: nat,
    sec: Ptr,
    size: nat,
    isInDynSymtab: bool,
    isInSymtab: bool,
    isAbsolute: bool,
    func: Ptr,
    variable: Ptr,
    mangledName: string,
    prettyName: string,
    typedName: string,
    tag: SymbolTag,
    framePtrRegNum: int,
    retType: Ptr,
    moduleName: string,
    fileName: string,
    verNames: seq<string>)

  /** `Symbol(unsigned)`: the initializer list leaves `function_`, `variable_`
      and `framePtrRegNum_` uninitialised, so whatever they happen to hold is a
      parameter here; every string starts empty. */
  function BlankSymbol(someFunc: Ptr, someVariable: Ptr, someFramePtrRegNum: int): (s: Symbol)
    ensures s.symType == ST_UNKNOWN && s.linkage == SL_UNKNOWN && s.tag == TAG_UNKNOWN
    ensures s.addr == 0 && s.size == 0
    ensures s.isInSymtab && !s.isInDynSymtab && !s.isAbsolute
    ensures s.owner == Null && s.sec == Null && s.retType == Null
    ensures s.mangledName == s.prettyName == s.typedName == s.moduleName == s.fileName == ""
  {
    Symbol(Null, ST_UNKNOWN, SL_UNKNOWN, 0, Null, 0, false, true, false,
           someFunc, someVariable, "", "", "", TAG_UNKNOWN, someFramePtrRegNum,
           Null, "", "", [])
  }

  /** `operator==`: field-wise equality that leaves out the tag, the function
      and variable back-links, the frame pointer register, the file name and
      the version names. */
  predicate SymbolEq(a: Symbol, b: Symbol)
  {
    && a.owner == b.owner
    && a.symType == b.symType
    && a.linkage == b.linkage
    && a.addr == b.addr
    && a.sec == b.sec
    && a.size == b.size
    && a.isInDynSymtab == b.isInDynSymtab
    && a.isInSymtab == b.isInSymtab
    && a.isAbsolute == b.isAbsolute
    && a.retType == b.retType
    && a.mangledName == b.mangledName
    && a.prettyName == b.prettyName
    && a.typedName == b.typedName
    && a.moduleName == b.moduleName
  }

  /** `getName()`, kept for old callers: the mangled name. */
  function GetName(s: Symbol): (n: string)
    ensures n == s.mangledName
  {
    s.mangledName
  }

  // ---------------------------------------------------------------------
  // Properties of operator==

  lemma SymbolEqIsEquivalence(a: Symbol, b: Symbol, c: Symbol)
    ensures SymbolEq(a, a)
    ensures SymbolEq(a, b) ==> SymbolEq(b, a)
    ensures SymbolEq(a, b) && SymbolEq(b, c) ==> SymbolEq(a, c)
  {
  }

  /** Symbols that differ only in fields `operator==` ignores compare equal. */
  lemma SymbolEqIgnores(s: Symbol, func: Ptr, variable: Ptr, tag: SymbolTag,
                        framePtrRegNum: int, fileName: string, verNames: seq<string>)
    ensures SymbolEq(s, s.(func := func, variable := variable, tag := tag,
                           framePtrRegNum := framePtrRegNum, fileName := fileName,
                           verNames := verNames))
  {
  }

  /** Symbols that differ in a name, the address, the type or the size
      compare unequal. */
  lemma SymbolEqDistinguishes(a: Symbol, b: Symbol)
    requires || a.mangledName != b.mangledName || a.prettyName != b.prettyName
             || a.typedName != b.typedName || a.addr != b.addr
             || a.symType != b.symType || a.size != b.size
    ensures !SymbolEq(a, b)
  {
  }

  /** Two blank symbols compare equal, whatever their uninitialised fields hold. */
  lemma BlankSymbolsCompareEqual(f1: Ptr, v1: Ptr, r1: int, f2: Ptr, v2: Ptr, r2: int)
    ensures SymbolEq(BlankSymbol(f1, v1, r1), BlankSymbol(f2, v2, r2))
  {
  }
}

/** The entities a symbol table indexes besides symbols, and the outcome types
    of its queries.  Only the fields the lookups read are kept. */
module Entities {

  datatype Option<T> = None | Some(value: T)

  /** The codes the lookups leave in `serr`, returned here instead. */
  datatype SymtabError = NoSuchSymbol | NoSuchFunction | NoSuchVariable | NoSuchModule | NoSuchRegion

  /** A lookup that yields one entity or says why it did not. */
  datatype Result<T> = Ok(value: T) | Err(error: SymtabError)

  /** The outcome of a lookup that fills a vector the caller passed in. */
  datatype Status = Found | NotFound(error: SymtabError)

  /** A function: its entry address is what the address index orders by. */
  datatype Function = Function(address: nat)

  /** A module: its address and the two names it is indexed under. */
  datatype Module = Module(addr: nat, fileName: string, fullName: string)

  /** A region (section): its name and the span [regionAddr, regionAddr + memSize). */
  datatype Region = Region(name: string, regionAddr: nat, memSize: nat)

  /** An exception block: the catch block starts at `catchStart`. */
  datatype ExceptionBlock = ExceptionBlock(catchStart: nat)

  /** The three name forms a symbol is indexed under; a set of them says
      which of the three name maps a query consults. */
  datatype Scheme = Mangled | Pretty | Typed
  type NameType = set<Scheme>

  /** Is `where` inside the region's half-open span? */
  predicate Encloses(r: Region, where: nat)
  {
    r.regionAddr <= where < r.regionAddr + r.memSize
  }

  /** The match test of the catch-block search: `addr` lies in
      [catchStart, catchStart + size), that is, the block starts in
      (addr - size, addr]; or a zero-sized query hits the start exactly. */
  predicate CatchCovers(catchStart: nat, addr: nat, size: nat)
  {
    (catchStart <= addr && catchStart + size > addr) || (size == 0 && catchStart == addr)
  }

  lemma ZeroSizeCatchIsExactStart(catchStart: nat, addr: nat)
    ensures CatchCovers(catchStart, addr, 0) <==> catchStart == addr
  {
  }
}

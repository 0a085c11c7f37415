/** The `EventType` value of proccontrol/h/EventType.h: an event code paired
    with the time (before, after, ...) at which the event is reported, and the
    `eventtype_cmp` order used to key containers by it. */
module EventTypes {

  type Code = int

  const Error: Code := -1
  const Unset: Code := 0
  const Exit: Code := 1
  const Crash: Code := 2
  const Fork: Code := 3
  const Exec: Code := 4
  const UserThreadCreate: Code := 5
  const LWPCreate: Code := 6
  const ThreadDestroy: Code := 7
  const UserThreadDestroy: Code := 8
  const LWPDestroy: Code := 9
  const Stop: Code := 10
  const Signal: Code := 11
  const LibraryLoad: Code := 12
  const LibraryUnload: Code := 13
  const Bootstrap: Code := 14
  const Breakpoint: Code := 15
  const RPC: Code := 16
  const SingleStep: Code := 17
  const Library: Code := 18

  // Codes that take callbacks but are delivered as other events.
  const Terminate: Code := 400
  const ThreadCreate: Code := 401

  // Codes the library keeps to itself.
  const InternalEvents: Code := 500
  const BreakpointClear: Code := 500
  const RPCInternal: Code := 501
  const Async: Code := 502
  const ChangePCStop: Code := 503
  const Detached: Code := 504
  const IntBootstrap: Code := 505

  /** Users number their own events from here on. */
  const MaxProcCtrlEvent: Code := 1000

  datatype Time = Pre | Post | None | Any

  /** The enumerator's integer value. */
  function TimeValue(t: Time): int
  {
    match t
    case Pre => 0
    case Post => 1
    case None => 2
    case Any => 3
  }

  datatype EventType = EventType(ecode: Code, etime: Time)
  {
    function code(): Code { ecode }
    function time(): Time { etime }
  }

  /** `EventType()`. */
  function DefaultEvent(): (e: EventType)
    ensures e.code() == Unset && e.time() == None
  {
    EventType(Unset, None)
  }

  /** `EventType(Code e)`: any time. */
  function EventOfCode(c: Code): (e: EventType)
    ensures e.code() == c && e.time() == Any
  {
    EventType(c, Any)
  }

  /** `EventType(Time t, Code e)`. */
  function EventAt(t: Time, c: Code): (e: EventType)
    ensures e.code() == c && e.time() == t
  {
    EventType(c, t)
  }

  /** `eventtype_cmp`: by code, then by the time's integer value. */
  predicate EventTypeLess(a: EventType, b: EventType)
  {
    if a.code() < b.code() then true
    else if a.code() > b.code() then false
    else TimeValue(a.time()) < TimeValue(b.time())
  }

  predicate IsInternal(c: Code)
  {
    InternalEvents <= c < MaxProcCtrlEvent
  }

  // ---------------------------------------------------------------------
  // Properties

  lemma TimeValueInjective(s: Time, t: Time)
    ensures TimeValue(s) == TimeValue(t) ==> s == t
  {
  }

  lemma EventTypeLessIrreflexive(a: EventType)
    ensures !EventTypeLess(a, a)
  {
  }

  /** The code decides first, whatever the times. */
  lemma EventTypeLessByCodeFirst(a: EventType, b: EventType)
    requires a.code() < b.code()
    ensures EventTypeLess(a, b) && !EventTypeLess(b, a)
  {
  }

  /** A strict order, total on distinct events: the lexicographic order on
      (code, time). */
  lemma EventTypeLessIsStrictTotalOrder(a: EventType, b: EventType, c: EventType)
    ensures EventTypeLess(a, b) ==> !EventTypeLess(b, a)
    ensures EventTypeLess(a, b) && EventTypeLess(b, c) ==> EventTypeLess(a, c)
    ensures a != b ==> EventTypeLess(a, b) || EventTypeLess(b, a)
  {
    TimeValueInjective(a.time(), b.time());
  }

  /** The internal codes lie in [InternalEvents, MaxProcCtrlEvent); every
      other code the header names lies below it. */
  lemma InternalCodesInRange()
    ensures InternalEvents == BreakpointClear
    ensures forall c ::
              c in {BreakpointClear, RPCInternal, Async, ChangePCStop, Detached, IntBootstrap}
              ==> IsInternal(c)
    ensures forall c ::
              c in {Error, Unset, Exit, Crash, Fork, Exec, UserThreadCreate, LWPCreate,
                    ThreadDestroy, UserThreadDestroy, LWPDestroy, Stop, Signal,
                    LibraryLoad, LibraryUnload, Bootstrap, Breakpoint, RPC, SingleStep,
                    Library, Terminate, ThreadCreate}
              ==> !IsInternal(c) && c < InternalEvents
  {
  }
}

/**
 Cancellable SQL calls on one database handle, as a system of steps: any number of calls, each
 with a watcher of its context, and any number of closes, interleaved in every way.
 */
module SqlContext {
  import opened Words

  // ---- One call ----

  datatype Cause = Cancelled | DeadlineExceeded

  /** Where the calling goroutine is; every state is named by what it does next. */
  datatype Pc =
    | Acquire | CheckHandle | CheckContext | Size | Allocate | Spawn | CheckEnded | Presignal | Dispatch
    | Native | CloseStop | Join | Free | Unlock | Done

  /** How a context ended, and where the call was at that moment. */
  datatype End = End(cause: Cause, at: Pc)

  datatype WatchPc = NotStarted | Watching | Signalling | Exited

  datatype Token = NoToken | Live | Freed

  datatype Result = Pending | ContextEnded | DatabaseClosed | NoAllocation | Answered

  /**
   `cleanup` marks a rollback; `sawOpen` is what the call read of the handle and `gotToken` whether
   its token was allocated, each None until then; `frees` and `cancels` count native calls on the
   token; `noticed` says that the call, at its check, or its watcher saw that the context had ended.
   */
  datatype Call = Call(
    cleanup: bool, hasDeadline: bool, ended: Option<End>, pc: Pc, watch: WatchPc, stop: bool, timeout: nat,
    sawOpen: Option<bool>, gotToken: Option<bool>, token: Token, frees: nat, noticed: bool, cancels: nat,
    dispatched: bool, result: Result)

  /**
   The write lock of Close: free, asked for, taken, or taken with the handle closed. A lock that is
   only asked for already keeps new readers out; it is taken when the readers inside have left.
   */
  datatype Writer = NoWriter | Waiting | Taken | Shut

  datatype System = System(open: bool, readers: set<nat>, writer: Writer, calls: map<nat, Call>)

  const NANOS_PER_MILLI := 1_000_000

  /** The timeout in whole milliseconds, rounded up, and one for a deadline already past. */
  function Rounded(remaining: int): nat {
    if remaining <= 0 then 1
    else remaining / NANOS_PER_MILLI + (if remaining % NANOS_PER_MILLI != 0 then 1 else 0)
  }

  /** The native deadline is never zero and never early, and less than a millisecond late. */
  lemma {:induction false} RoundedIsCeiling(remaining: int)
    ensures Rounded(remaining) >= 1
    ensures remaining <= Rounded(remaining) * NANOS_PER_MILLI
    ensures remaining > 0 ==> (Rounded(remaining) - 1) * NANOS_PER_MILLI < remaining
  {
  }

  /** A context that ended by its deadline is left to the native deadline, when there is one. */
  predicate MustSignal(c: Call) {
    c.ended.Some? && (c.ended.value.cause != DeadlineExceeded || c.timeout == 0)
  }

  // ---- Steps ----

  datatype Action =
    | Begin(id: nat, isCleanup: bool, withDeadline: bool)
    | EndContext(id: nat, cause: Cause)
    | Advance(id: nat, remaining: int, granted: bool)
    | GiveUp(id: nat)
    | Watch(id: nat, onStop: bool)
    | AskWriter
    | TakeWriter
    | CloseHandle
    | ReleaseWriter

  function NewCall(cleanup: bool, hasDeadline: bool): Call {
    Call(cleanup, hasDeadline, None, Acquire, NotStarted, false, 0, None, None, NoToken, 0, false, 0, false, Pending)
  }

  /** When the calling goroutine can move: the lock must be free, and the watcher gone before the join ends. */
  predicate Ready(s: System, c: Call) {
    match c.pc
    case Acquire => s.writer == NoWriter
    case Join => c.watch == Exited
    case Done => false
    case _ => true
  }

  predicate Enabled(s: System, a: Action) {
    match a
    case Begin(id, _, _) => id !in s.calls
    case EndContext(id, _) => id in s.calls && s.calls[id].ended.None?
    case Advance(id, _, _) => id in s.calls && Ready(s, s.calls[id])
    case GiveUp(id) => id in s.calls && s.calls[id].pc == Acquire && !s.calls[id].cleanup && s.calls[id].ended.Some?
    case Watch(id, onStop) => id in s.calls && WatchReady(s.calls[id], onStop)
    case AskWriter => s.writer == NoWriter
    case TakeWriter => s.writer == Waiting && s.readers == {}
    case CloseHandle => s.writer == Taken
    case ReleaseWriter => s.writer == Shut
  }

  predicate WatchReady(c: Call, onStop: bool) {
    match c.watch
    case Watching => if onStop then c.stop else c.ended.Some?
    case Signalling => true
    case _ => false
  }

  function Leave(c: Call, result: Result): Call {
    c.(result := result, pc := Unlock)
  }

  /** The calling goroutine's own change. */
  function AdvanceCall(c: Call, open: bool, remaining: int, granted: bool): (next: Call)
    ensures next.cancels == c.cancels + if c.pc == Presignal then 1 else 0
    ensures c.pc != Spawn ==> next.watch == c.watch
  {
    match c.pc
    case Acquire => c.(pc := CheckHandle)
    case CheckHandle =>
      var seen := c.(sawOpen := Some(open));
      if !open then Leave(seen, DatabaseClosed) else seen.(pc := CheckContext)
    case CheckContext => if !c.cleanup && c.ended.Some? then Leave(c, ContextEnded) else c.(pc := Size)
    case Size => c.(timeout := if c.hasDeadline then Rounded(remaining) else 0, pc := Allocate)
    case Allocate =>
      var asked := c.(gotToken := Some(granted));
      if granted then asked.(token := Live, pc := Spawn) else Leave(asked, NoAllocation)
    case Spawn => c.(watch := Watching, pc := CheckEnded)
    case CheckEnded => c.(noticed := c.noticed || c.ended.Some?, pc := if MustSignal(c) then Presignal else Dispatch)
    case Presignal => c.(cancels := c.cancels + 1, pc := Dispatch)
    case Dispatch => c.(dispatched := true, pc := Native)
    case Native => c.(result := Answered, pc := CloseStop)
    case CloseStop => c.(stop := true, pc := Join)
    case Join => c.(pc := Free)
    case Free => c.(token := Freed, frees := c.frees + 1, pc := Unlock)
    case Unlock => c.(pc := Done)
    case Done => c
  }

  function WatchCall(c: Call, onStop: bool): Call {
    if c.watch == Signalling then c.(cancels := c.cancels + 1, watch := Exited)
    else if onStop then c.(watch := Exited)
    else c.(noticed := c.noticed || c.ended.Some?, watch := if MustSignal(c) then Signalling else Exited)
  }

  function Ended(c: Call, cause: Cause): Call {
    c.(ended := Some(End(cause, c.pc)))
  }

  /** Taking and giving back the read lock. */
  function ReadersAfter(s: System, id: nat): set<nat>
    requires id in s.calls
  {
    if s.calls[id].pc == Acquire then s.readers + {id}
    else if s.calls[id].pc == Unlock then s.readers - {id}
    else s.readers
  }

  function Perform(s: System, a: Action): System
    requires Enabled(s, a)
  {
    match a
    case Begin(id, cleanup, hasDeadline) => s.(calls := s.calls[id := NewCall(cleanup, hasDeadline)])
    case EndContext(id, cause) => s.(calls := s.calls[id := Ended(s.calls[id], cause)])
    case Advance(id, remaining, granted) =>
      s.(calls := s.calls[id := AdvanceCall(s.calls[id], s.open, remaining, granted)],
         readers := ReadersAfter(s, id))
    case GiveUp(id) => s.(calls := s.calls[id := s.calls[id].(result := ContextEnded, pc := Done)])
    case Watch(id, onStop) => s.(calls := s.calls[id := WatchCall(s.calls[id], onStop)])
    case AskWriter => s.(writer := Waiting)
    case TakeWriter => s.(writer := Taken)
    case CloseHandle => s.(writer := Shut, open := false)
    case ReleaseWriter => s.(writer := NoWriter)
  }

  const INITIAL := System(true, {}, NoWriter, map[])

  /** All states that the actions lead through; None when one of them is not enabled. */
  function Run(actions: seq<Action>): Option<System> {
    if actions == [] then Some(INITIAL)
    else
      var before := Run(actions[..|actions| - 1]);
      var last := actions[|actions| - 1];
      if before.None? || !Enabled(before.value, last) then None else Some(Perform(before.value, last))
  }

  // ---- The invariant ----

  /** Between taking and giving back the read lock. */
  predicate Holds(c: Call) {
    c.pc != Acquire && c.pc != Done
  }

  /** The states in which the handle has been seen open and the lock is still held. */
  predicate UsesHandle(c: Call) {
    c.pc in {CheckContext, Size, Allocate, Spawn, CheckEnded, Presignal, Dispatch, Native, CloseStop, Join, Free}
  }

  predicate Before(c: Call) {
    c.pc in {Acquire, CheckHandle, CheckContext, Size, Allocate}
  }

  predicate Leaving(c: Call) {
    c.pc == Unlock || c.pc == Done
  }

  predicate TokenOk(c: Call) {
    && c.frees == (if c.token == Freed then 1 else 0)
    && (Before(c) ==> c.token == NoToken)
    && (!Before(c) && !Leaving(c) ==> c.token == Live)
    && (Leaving(c) ==> c.token != Live)
  }

  predicate WatchOk(c: Call) {
    && (c.watch == NotStarted <==> c.token == NoToken || c.pc == Spawn)
    && (c.pc == Free || Leaving(c) ==> c.watch == Exited || c.watch == NotStarted)
    && (c.stop <==> c.pc == Join || c.pc == Free || c.token == Freed)
  }

  /** An end that no native deadline stands for: a cancellation, or any end of a context without a deadline. */
  predicate EndedOtherwise(c: Call) {
    c.ended.Some? && (c.ended.value.cause == Cancelled || !c.hasDeadline)
  }

  /** The places of a call before it first looks at its context, and before it looks the second time. */
  predicate BeforeFirstLook(pc: Pc) {
    pc in {Acquire, CheckHandle, CheckContext}
  }

  predicate BeforeSecondLook(pc: Pc) {
    BeforeFirstLook(pc) || pc in {Size, Allocate, Spawn, CheckEnded}
  }

  /** A signal has been sent or is about to be. */
  predicate SignalComes(c: Call) {
    c.cancels > 0 || c.watch == Signalling || c.pc == Presignal
  }

  predicate SignalOk(c: Call) {
    && (c.hasDeadline && (c.token != NoToken || c.pc == Allocate) ==> c.timeout >= 1)
    && (!c.hasDeadline ==> c.timeout == 0) && (c.noticed ==> c.ended.Some?)
    && (SignalComes(c) ==> c.token != NoToken && c.noticed && EndedOtherwise(c))
    && (c.noticed && EndedOtherwise(c) ==> SignalComes(c))
    && (c.watch == Exited && !c.stop ==> c.noticed)
    && c.cancels <= (if BeforeSecondLook(c.pc) || c.pc == Presignal then 0 else 1)
                    + (if c.watch == Exited then 1 else 0)
  }

  /** What an end of the context that came early has led to. */
  predicate EarlyEndOk(c: Call) {
    && (c.dispatched || c.pc == Dispatch ==>
         EndedOtherwise(c) && BeforeSecondLook(c.ended.value.at) ==> c.cancels > 0)
    && (c.pc == Presignal ==> EndedOtherwise(c))
    && (c.ended.Some? && BeforeFirstLook(c.ended.value.at) && !c.cleanup ==>
         BeforeFirstLook(c.pc) || (Leaving(c) && c.gotToken.None?))
  }

  predicate ResultOk(c: Call) {
    && (c.dispatched <==> c.pc in {Native, CloseStop, Join, Free} || c.token == Freed)
    && (c.result == Answered <==> c.pc in {CloseStop, Join, Free} || c.token == Freed)
    && (c.result == Pending <==> !Leaving(c) && c.pc !in {CloseStop, Join, Free})
    && (c.result == ContextEnded ==> !c.cleanup && c.ended.Some?)
  }

  /** What the call has read of the handle and of the allocation, and what came of it. */
  predicate DispatchOk(c: Call) {
    && (c.pc == Acquire || c.pc == CheckHandle ==> c.sawOpen.None?) && (Before(c) ==> c.gotToken.None?)
    && (Leaving(c) && c.sawOpen.None? ==> c.result == ContextEnded)
    && (UsesHandle(c) || c.gotToken.Some? ==> c.sawOpen == Some(true))
    && (c.result == DatabaseClosed <==> c.sawOpen == Some(false))
    && (c.gotToken == Some(true) <==> c.token != NoToken)
    && (c.result == NoAllocation <==> c.gotToken == Some(false))
  }

  predicate CallOk(c: Call) {
    TokenOk(c) && WatchOk(c) && SignalOk(c) && EarlyEndOk(c) && ResultOk(c) && DispatchOk(c)
  }

  /** Close holds the lock, so no call does. */
  predicate Exclusive(s: System) {
    s.writer == Taken || s.writer == Shut
  }

  predicate Inv(s: System) {
    && (Exclusive(s) ==> s.readers == {})
    && (s.writer == Shut ==> !s.open)
    && (forall id :: id in s.readers ==> id in s.calls)
    && (forall id :: id in s.calls ==> CallOk(s.calls[id]))
    && (forall id :: id in s.calls ==> (id in s.readers <==> Holds(s.calls[id])))
    && (forall id :: id in s.calls && UsesHandle(s.calls[id]) ==> s.open)
    && (forall id :: id in s.calls && s.calls[id].result == DatabaseClosed ==> !s.open)
  }

  lemma {:induction false} AdvanceKeepsToken(c: Call, open: bool, remaining: int, granted: bool)
    requires TokenOk(c) && WatchOk(c) && c.pc != Done && (c.pc == Join ==> c.watch == Exited)
    ensures var next := AdvanceCall(c, open, remaining, granted); TokenOk(next) && WatchOk(next)
  {
  }

  lemma {:induction false} AdvanceKeepsSignal(c: Call, open: bool, remaining: int, granted: bool)
    requires TokenOk(c) && WatchOk(c) && SignalOk(c) && c.pc != Done
    ensures SignalOk(AdvanceCall(c, open, remaining, granted))
  {
    RoundedIsCeiling(remaining);
  }

  lemma {:induction false} AdvanceKeepsEarly(c: Call, open: bool, remaining: int, granted: bool)
    requires CallOk(c) && c.pc != Done
    ensures EarlyEndOk(AdvanceCall(c, open, remaining, granted))
  {
    assert c.pc == CheckEnded ==> (MustSignal(c) <==> EndedOtherwise(c));
  }

  lemma {:induction false} AdvanceKeepsResult(c: Call, open: bool, remaining: int, granted: bool)
    requires TokenOk(c) && ResultOk(c) && DispatchOk(c) && c.pc != Done
    ensures var next := AdvanceCall(c, open, remaining, granted); ResultOk(next) && DispatchOk(next)
  {
  }

  lemma {:induction false} AdvanceKeepsCall(c: Call, open: bool, remaining: int, granted: bool)
    requires CallOk(c) && c.pc != Done && (c.pc == Join ==> c.watch == Exited)
    ensures CallOk(AdvanceCall(c, open, remaining, granted))
  {
    AdvanceKeepsToken(c, open, remaining, granted);
    AdvanceKeepsSignal(c, open, remaining, granted);
    AdvanceKeepsEarly(c, open, remaining, granted);
    AdvanceKeepsResult(c, open, remaining, granted);
  }

  lemma {:induction false} WatchKeepsCall(c: Call, onStop: bool)
    requires CallOk(c) && WatchReady(c, onStop)
    ensures CallOk(WatchCall(c, onStop))
    ensures c.watch == Signalling ==> c.token == Live
  {
  }

  lemma {:induction false} EndKeepsCall(c: Call, cause: Cause)
    requires CallOk(c) && c.ended.None?
    ensures CallOk(Ended(c, cause))
  {
  }

  /** Replacing one call, with the reader set brought in line. */
  lemma {:induction false} PutCall(s: System, id: nat, c: Call, readers: set<nat>)
    requires Inv(s) && CallOk(c)
    requires readers == if Holds(c) then s.readers + {id} else s.readers - {id}
    requires (UsesHandle(c) ==> s.open) && (Holds(c) ==> !Exclusive(s)) && (c.result == DatabaseClosed ==> !s.open)
    ensures Inv(s.(calls := s.calls[id := c], readers := readers))
  {
  }

  function PcRank(pc: Pc): nat {
    match pc
    case Acquire => 14 case CheckHandle => 13 case CheckContext => 12 case Size => 11 case Allocate => 10
    case Spawn => 9 case CheckEnded => 8 case Presignal => 7 case Dispatch => 6 case Native => 5
    case CloseStop => 4 case Join => 3 case Free => 2 case Unlock => 1 case Done => 0
  }

  function WatchRank(watch: WatchPc): nat {
    match watch
    case NotStarted => 3 case Watching => 2 case Signalling => 1 case Exited => 0
  }

  /** Steps that a call and its watcher can still make. */
  function Rank(c: Call): nat {
    PcRank(c.pc) + WatchRank(c.watch)
  }

  lemma {:induction false} AdvanceFacts(c: Call, open: bool, remaining: int, granted: bool)
    requires CallOk(c) && c.pc != Done && (UsesHandle(c) ==> open)
    ensures var next := AdvanceCall(c, open, remaining, granted);
      && (UsesHandle(next) ==> open) && (Holds(next) <==> c.pc != Unlock)
      && (next.result == DatabaseClosed ==> !open || c.result == DatabaseClosed)
  {
  }

  /** The reader set follows the call. */
  lemma {:induction false} ReadersFollow(s: System, id: nat, next: Call)
    requires id in s.calls && s.calls[id].pc != Done && (id in s.readers <==> Holds(s.calls[id]))
    requires Holds(next) <==> s.calls[id].pc != Unlock
    ensures ReadersAfter(s, id) == if Holds(next) then s.readers + {id} else s.readers - {id}
  {
  }

  lemma {:induction false} AdvanceKeeps(s: System, id: nat, remaining: int, granted: bool, readers: set<nat>)
    requires Inv(s) && id in s.calls && Ready(s, s.calls[id])
    requires readers == ReadersAfter(s, id)
    ensures Inv(s.(calls := s.calls[id := AdvanceCall(s.calls[id], s.open, remaining, granted)], readers := readers))
  {
    var c := s.calls[id];
    assert CallOk(c) && (id in s.readers <==> Holds(c)) && (UsesHandle(c) ==> s.open);
    AdvanceKeepsCall(c, s.open, remaining, granted);
    AdvanceFacts(c, s.open, remaining, granted);
    ReadersFollow(s, id, AdvanceCall(c, s.open, remaining, granted));
    PutCall(s, id, AdvanceCall(c, s.open, remaining, granted), readers);
  }

  lemma {:induction false} PutKeeps(s: System, id: nat, c: Call)
    requires Inv(s) && id in s.calls && CallOk(c) && c.pc == s.calls[id].pc && c.result == s.calls[id].result
    ensures Inv(s.(calls := s.calls[id := c]))
  {
    assert id in s.readers <==> Holds(c);
    assert Holds(c) ==> !Exclusive(s);
    PutCall(s, id, c, s.readers);
  }

  lemma {:induction false} BeginKeeps(s: System, id: nat, cleanup: bool, hasDeadline: bool)
    requires Inv(s) && id !in s.calls
    ensures Inv(s.(calls := s.calls[id := NewCall(cleanup, hasDeadline)]))
  {
    PutCall(s, id, NewCall(cleanup, hasDeadline), s.readers);
  }

  lemma {:induction false} GiveUpKeeps(s: System, id: nat)
    requires Inv(s) && Enabled(s, GiveUp(id))
    ensures Inv(s.(calls := s.calls[id := s.calls[id].(result := ContextEnded, pc := Done)]))
  {
    assert CallOk(s.calls[id]);
    PutCall(s, id, s.calls[id].(result := ContextEnded, pc := Done), s.readers);
  }

  lemma {:induction false} CloseKeeps(s: System)
    requires Inv(s) && s.writer == Taken
    ensures Inv(Perform(s, CloseHandle)) && forall id :: id in s.calls ==> s.calls[id].pc in {Acquire, Done}
  {
    forall id | id in s.calls
      ensures !Holds(s.calls[id])
    {
      assert id !in s.readers;
    }
  }

  /** Every action keeps the invariant. */
  lemma {:induction false} PerformKeeps(s: System, a: Action)
    requires Inv(s) && Enabled(s, a)
    ensures Inv(Perform(s, a))
  {
    match a
    case Begin(id, cleanup, hasDeadline) =>
      BeginKeeps(s, id, cleanup, hasDeadline);
    case EndContext(id, cause) =>
      EndKeepsCall(s.calls[id], cause);
      PutKeeps(s, id, Ended(s.calls[id], cause));
    case Advance(id, remaining, granted) =>
      AdvanceKeeps(s, id, remaining, granted, Perform(s, a).readers);
    case GiveUp(id) =>
      GiveUpKeeps(s, id);
    case Watch(id, onStop) =>
      WatchKeepsCall(s.calls[id], onStop);
      PutKeeps(s, id, WatchCall(s.calls[id], onStop));
    case AskWriter =>
    case TakeWriter =>
    case CloseHandle =>
      CloseKeeps(s);
    case ReleaseWriter =>
  }

  // ---- What every run keeps ----

  /** A finished call, as its caller can see it. */
  predicate Finished(c: Call) {
    && c.frees == (if c.dispatched then 1 else 0)
    && (c.watch == NotStarted || c.watch == Exited)
    && (c.dispatched <==> c.result == Answered)
    && (c.cancels > 0 <==> c.noticed && c.ended.Some? && (c.ended.value.cause == Cancelled || !c.hasDeadline))
  }

  /**
   A finished rollback has read the handle, and has asked for a token if the handle was open; it was
   dispatched exactly when the handle was open and the token was allocated.
   */
  predicate RolledBack(c: Call) {
    && c.sawOpen.Some? && (c.sawOpen == Some(true) <==> c.gotToken.Some?)
    && (c.dispatched <==> c.sawOpen == Some(true) && c.gotToken == Some(true))
  }

  predicate CallSafe(s: System, c: Call) {
    && c.frees <= 1 && c.cancels <= 2
    && (c.pc == Done ==> Finished(c))
    && (c.pc == Done && c.cleanup ==> RolledBack(c))
    && (c.sawOpen == Some(false) ==> !s.open)
    && (c.cancels > 0 ==> c.ended.Some? && (c.ended.value.cause == Cancelled || !c.hasDeadline))
    && (c.pc in {Presignal, Dispatch, Native, Free} || c.watch == Signalling ==> c.token == Live)
    && (c.pc in {Dispatch, Native} ==> s.open && s.writer != Taken && s.writer != Shut)
    && (c.pc in {Dispatch, Native} && c.watch == Exited ==> c.noticed)
    && EarlyEndSeen(c)
  }

  /**
   A query whose context ended before it looked at it is not dispatched; a rollback, or a call whose
   context was cancelled between its two looks, is dispatched with its token already cancelled.
   */
  predicate EarlyEndSeen(c: Call) {
    c.dispatched && c.ended.Some? ==>
      && (!c.cleanup ==> c.ended.value.at !in {Acquire, CheckHandle, CheckContext})
      && ((c.ended.value.cause == Cancelled || !c.hasDeadline) &&
          c.ended.value.at in {Acquire, CheckHandle, CheckContext, Size, Allocate, Spawn, CheckEnded} ==>
            c.cancels > 0)
  }

  lemma {:induction false} CallIsSafe(s: System, id: nat)
    requires Inv(s) && id in s.calls
    ensures CallSafe(s, s.calls[id])
  {
    var c := s.calls[id];
    assert CallOk(c) && (id in s.readers <==> Holds(c)) && (UsesHandle(c) ==> s.open);
  }

  lemma {:induction false} RunKeeps(actions: seq<Action>)
    requires Run(actions).Some?
    ensures Inv(Run(actions).value)
  {
    if actions == [] {
    } else {
      RunKeeps(actions[..|actions| - 1]);
      PerformKeeps(Run(actions[..|actions| - 1]).value, actions[|actions| - 1]);
    }
  }

  /**
   Safety of every interleaving. A call or a watcher that is about to use a token natively, or does
   so, has a live token; none is in native code on a closed handle or while Close has the lock, and its
   watcher has not left unless it saw the context end. A token
   is freed at most once, and exactly once by the time a dispatched call has returned, its watcher
   gone; a rollback is dispatched exactly when it finds the handle open and gets a token, and finds
   it closed only after a Close. A context ended by its own deadline never causes a cancel signal;
   every other end that the call or its watcher saw has been signalled when the call returns, and no
   signal is sent without one. A query whose context ended before the call looked is not dispatched.
   */
  lemma {:induction false} RunIsSafe(actions: seq<Action>)
    requires Run(actions).Some?
    ensures var s := Run(actions).value;
      forall id :: id in s.calls ==> CallSafe(s, s.calls[id])
  {
    RunKeeps(actions);
    var s := Run(actions).value;
    forall id | id in s.calls
      ensures CallSafe(s, s.calls[id])
    {
      CallIsSafe(s, id);
    }
  }

  // ---- The watcher and the timeout, by their steps ----

  lemma {:induction false} AdvanceKeepsComing(c: Call, open: bool, remaining: int, granted: bool)
    requires SignalComes(c) && WatchOk(c)
    ensures SignalComes(AdvanceCall(c, open, remaining, granted))
  {
  }

  lemma {:induction false} WatchKeepsComing(c: Call, onStop: bool)
    requires SignalComes(c)
    ensures SignalComes(WatchCall(c, onStop))
  {
  }

  /** A call is changed by its own steps, its watcher and the end of its context, and by nothing else. */
  lemma {:induction false} CallAfter(s: System, a: Action, id: nat)
    requires Enabled(s, a) && id in s.calls
    ensures id in Perform(s, a).calls
    ensures var c, next := s.calls[id], Perform(s, a).calls[id];
      if (a.Advance? || a.GiveUp? || a.Watch?) && a.id == id then true
      else if a.EndContext? && a.id == id then next == Ended(c, a.cause)
      else next == c
  {
  }

  lemma {:induction false} SignalStays(s: System, a: Action, id: nat)
    requires Enabled(s, a) && id in s.calls && CallOk(s.calls[id]) && SignalComes(s.calls[id])
    ensures id in Perform(s, a).calls && SignalComes(Perform(s, a).calls[id])
  {
    CallAfter(s, a, id);
    if (a.Advance? || a.GiveUp? || a.Watch?) && a.id == id {
      StepOfCall(s, a);
      match a
      case Advance(_, remaining, granted) => AdvanceKeepsComing(s.calls[id], s.open, remaining, granted);
      case Watch(_, onStop) => WatchKeepsComing(s.calls[id], onStop);
      case GiveUp(_) =>
    }
  }

  lemma {:induction false} SignalStaysOn(actions: seq<Action>, n: nat, id: nat)
    requires n <= |actions| && Run(actions).Some? && Run(actions[..n]).Some? && id in Run(actions[..n]).value.calls
    requires SignalComes(Run(actions[..n]).value.calls[id])
    ensures id in Run(actions).value.calls && SignalComes(Run(actions).value.calls[id])
    decreases |actions|
  {
    if n == |actions| {
      assert actions[..n] == actions;
    } else {
      var front := actions[..|actions| - 1];
      assert front[..n] == actions[..n];
      SignalStaysOn(front, n, id);
      RunKeeps(front);
      SignalStays(Run(front).value, actions[|actions| - 1], id);
    }
  }

  /** The call looks at its context, or its watcher wakes because the context has ended. */
  predicate Looks(s: System, a: Action) {
    || (a.Advance? && a.id in s.calls && s.calls[a.id].pc == CheckEnded)
    || (a.Watch? && a.id in s.calls && s.calls[a.id].watch == Watching && !a.onStop)
  }

  /**
   In every run: when a call looks at a context that has been cancelled, or that has ended without a
   deadline, or when its watcher wakes for one, the token is cancelled before the call returns.
   */
  lemma {:induction false} EndIsSignalled(actions: seq<Action>, n: nat, id: nat)
    requires n < |actions| && Run(actions).Some? && Run(actions[..n]).Some? && Run(actions[..n + 1]).Some?
    requires Looks(Run(actions[..n]).value, actions[n]) && actions[n].id == id
    requires var c := Run(actions[..n]).value.calls[id];
      c.ended.Some? && (c.ended.value.cause == Cancelled || !c.hasDeadline)
    ensures id in Run(actions).value.calls
    ensures Run(actions).value.calls[id].pc == Done ==> Run(actions).value.calls[id].cancels > 0
  {
    var before := actions[..n];
    assert actions[..n + 1][..n] == before;
    RunKeeps(before);
    LookSignals(Run(before).value, actions[n]);
    SignalStaysOn(actions, n + 1, id);
    RunKeeps(actions);
    if Run(actions).value.calls[id].pc == Done {
      ReturnedSignalled(Run(actions).value, id);
    }
  }

  lemma {:induction false} LookSignals(s: System, a: Action)
    requires Inv(s) && Enabled(s, a) && Looks(s, a) && EndedOtherwise(s.calls[a.id])
    ensures SignalComes(Perform(s, a).calls[a.id])
  {
    assert CallOk(s.calls[a.id]);
    StepOfCall(s, a);
  }

  lemma {:induction false} ReturnedSignalled(s: System, id: nat)
    requires Inv(s) && id in s.calls && SignalComes(s.calls[id]) && s.calls[id].pc == Done
    ensures s.calls[id].cancels > 0
  {
    assert CallOk(s.calls[id]);
  }

  /** The timeout given to the token is the remaining time in milliseconds, rounded up; without a deadline it is 0. */
  lemma {:induction false} TimeoutIsCeiling(c: Call, open: bool, remaining: int, granted: bool)
    requires c.pc == Size
    ensures var timeout := AdvanceCall(c, open, remaining, granted).timeout;
      && (!c.hasDeadline ==> timeout == 0)
      && (c.hasDeadline ==>
           && timeout >= 1 && remaining <= timeout * 1_000_000
           && (remaining > 0 ==> (timeout - 1) * 1_000_000 < remaining) && (remaining <= 0 ==> timeout == 1))
  {
    RoundedIsCeiling(remaining);
  }

  // ---- Rollbacks that do not dispatch ----

  lemma {:induction false} RunStep(actions: seq<Action>, a: Action)
    requires Run(actions).Some? && Enabled(Run(actions).value, a)
    ensures Run(actions + [a]) == Some(Perform(Run(actions).value, a))
  {
    assert (actions + [a])[..|actions|] == actions;
  }

  /** A state that some run reaches. */
  ghost predicate Reached(s: System) {
    exists actions :: Run(actions) == Some(s)
  }

  lemma {:induction false} Then(s: System, a: Action) returns (t: System)
    requires Reached(s) && Enabled(s, a)
    ensures Reached(t) && t == Perform(s, a)
  {
    var actions :| Run(actions) == Some(s);
    RunStep(actions, a);
    t := Perform(s, a);
  }

  /** A rollback after a Close returns without dispatch. */
  lemma {:induction false} RollbackOnClosedHandle() returns (s: System)
    ensures Reached(s) && 0 in s.calls
    ensures var c := s.calls[0]; c.cleanup && c.pc == Done && c.sawOpen == Some(false) && !c.dispatched
  {
    assert Run([]) == Some(INITIAL);
    s := Then(INITIAL, AskWriter);
    s := Then(s, TakeWriter);
    s := Then(s, CloseHandle);
    s := Then(s, ReleaseWriter);
    s := Then(s, Begin(0, true, false));
    s := Then(s, Advance(0, 0, true));
    s := Then(s, Advance(0, 0, true));
    s := Then(s, Advance(0, 0, true));
  }

  /** So does a rollback on an open handle whose token cannot be allocated. */
  lemma {:induction false} RollbackWithoutToken() returns (s: System)
    ensures Reached(s) && 0 in s.calls && s.open
    ensures var c := s.calls[0]; c.cleanup && c.pc == Done && c.gotToken == Some(false) && !c.dispatched
  {
    assert Run([]) == Some(INITIAL);
    s := Then(INITIAL, Begin(0, true, false));
    s := Then(s, Advance(0, 0, true));
    s := Then(s, Advance(0, 0, true));
    s := Then(s, Advance(0, 0, true));
    s := Then(s, Advance(0, 0, true));
    s := Then(s, Advance(0, 0, false));
    s := Then(s, Advance(0, 0, true));
  }

  // ---- Every call can finish ----

  lemma {:induction false} AdvanceCountsDown(c: Call, open: bool, remaining: int, granted: bool)
    requires WatchOk(c) && TokenOk(c) && c.pc != Done
    ensures Rank(AdvanceCall(c, open, remaining, granted)) < Rank(c)
  {
  }

  lemma {:induction false} WatchCountsDown(c: Call, onStop: bool)
    requires WatchReady(c, onStop)
    ensures Rank(WatchCall(c, onStop)) < Rank(c)
  {
  }

  /** What a step of a call or its watcher makes of the call. */
  lemma {:induction false} StepOfCall(s: System, a: Action)
    requires Enabled(s, a) && (a.Advance? || a.GiveUp? || a.Watch?)
    ensures var c, next := s.calls[a.id], Perform(s, a).calls[a.id];
      && (a.Advance? ==> next == AdvanceCall(c, s.open, a.remaining, a.granted))
      && (a.Watch? ==> next == WatchCall(c, a.onStop))
      && (a.GiveUp? ==> next == c.(result := ContextEnded, pc := Done))
  {
  }

  /** Every step of a call or its watcher brings the call nearer to its end. */
  lemma {:induction false} StepsCountDown(s: System, a: Action)
    requires Inv(s) && Enabled(s, a) && (a.Advance? || a.GiveUp? || a.Watch?)
    ensures Rank(Perform(s, a).calls[a.id]) < Rank(s.calls[a.id])
  {
    var c := s.calls[a.id];
    assert CallOk(c);
    StepOfCall(s, a);
    match a
    case Advance(_, remaining, granted) => AdvanceCountsDown(c, s.open, remaining, granted);
    case Watch(_, onStop) => WatchCountsDown(c, onStop);
    case GiveUp(_) =>
  }

  /** A call or its watcher can step; a call in native code steps when the native call returns. */
  ghost predicate CanMove(s: System, id: nat)
    requires id in s.calls
  {
    Ready(s, s.calls[id]) || (s.calls[id].pc == Join && exists onStop :: WatchReady(s.calls[id], onStop))
  }

  lemma {:induction false} InsideMoves(s: System, id: nat)
    requires Inv(s) && id in s.calls && Holds(s.calls[id])
    ensures CanMove(s, id)
  {
    var c := s.calls[id];
    assert CallOk(c);
    if c.pc == Join {
      assert WatchReady(c, true) || WatchReady(c, false) || c.watch == Exited;
    }
  }

  /** Whoever keeps a call out of the lock can move: Close itself, or a reader that Close waits for. */
  ghost predicate HolderMoves(s: System) {
    || Enabled(s, TakeWriter) || Enabled(s, CloseHandle) || Enabled(s, ReleaseWriter)
    || (s.writer == Waiting && exists id :: id in s.readers && id in s.calls && CanMove(s, id))
  }

  /**
   No deadlock: a call that has not returned can move, it or its watcher, or it stands before the
   lock and whoever keeps it out can move.
   */
  lemma {:induction false} NoDeadlock(s: System, id: nat)
    requires Inv(s) && id in s.calls && s.calls[id].pc != Done
    ensures CanMove(s, id) || (s.calls[id].pc == Acquire && HolderMoves(s))
  {
    if Holds(s.calls[id]) {
      InsideMoves(s, id);
    } else if s.writer == Waiting && s.readers != {} {
      var reader :| reader in s.readers;
      assert Holds(s.calls[reader]);
      InsideMoves(s, reader);
    }
  }

  /** While Close waits no reader enters, so the readers it waits for are all there will be. */
  lemma {:induction false} WaitingDrains(s: System, a: Action)
    requires Inv(s) && Enabled(s, a) && s.writer == Waiting
    ensures Perform(s, a).readers <= s.readers
  {
  }

  // ---- Every schedule brings the calls to their end ----

  /** The steps of the calls, the contexts and the Close under way, as opposed to a new call or a new Close. */
  predicate UnderWay(a: Action) {
    !a.Begin? && !a.AskWriter?
  }

  /** Steps that can still happen to a call, the end of its context included. */
  function Remaining(c: Call): nat {
    Rank(c) + if c.ended.None? then 1 else 0
  }

  ghost function RemainingOf(calls: map<nat, Call>): nat {
    if calls == map[] then 0
    else
      var id :| id in calls;
      Remaining(calls[id]) + RemainingOf(calls - {id})
  }

  lemma {:induction false} RemainingWithout(calls: map<nat, Call>, id: nat)
    requires id in calls
    ensures RemainingOf(calls) == Remaining(calls[id]) + RemainingOf(calls - {id})
    decreases |calls|
  {
    var pick :| pick in calls && RemainingOf(calls) == Remaining(calls[pick]) + RemainingOf(calls - {pick});
    if pick != id {
      RemainingWithout(calls - {pick}, id);
      RemainingWithout(calls - {id}, pick);
      assert calls - {pick} - {id} == calls - {id} - {pick};
    }
  }

  lemma {:induction false} RemainingAfter(calls: map<nat, Call>, id: nat, next: Call)
    requires id in calls && Remaining(next) < Remaining(calls[id])
    ensures RemainingOf(calls[id := next]) < RemainingOf(calls)
  {
    RemainingWithout(calls, id);
    RemainingWithout(calls[id := next], id);
    assert calls[id := next] - {id} == calls - {id};
  }

  function WriterRank(writer: Writer): nat {
    match writer
    case Waiting => 3 case Taken => 2 case Shut => 1 case NoWriter => 0
  }

  /** The most steps that can follow without a new call or a new Close. */
  ghost function Budget(s: System): nat {
    RemainingOf(s.calls) + WriterRank(s.writer)
  }

  /** A step that concerns one call changes only that call, and leaves it fewer steps. */
  lemma {:induction false} CallSpends(s: System, a: Action)
    requires Inv(s) && Enabled(s, a) && (a.Advance? || a.GiveUp? || a.Watch? || a.EndContext?)
    ensures var t := Perform(s, a);
      && a.id in t.calls && t.calls == s.calls[a.id := t.calls[a.id]] && t.writer == s.writer
      && Remaining(t.calls[a.id]) < Remaining(s.calls[a.id])
  {
    if !a.EndContext? {
      StepsCountDown(s, a);
      StepOfCall(s, a);
    }
  }

  lemma {:induction false} StepsSpend(s: System, a: Action)
    requires Inv(s) && Enabled(s, a) && UnderWay(a)
    ensures Budget(Perform(s, a)) < Budget(s) && Perform(s, a).calls.Keys == s.calls.Keys
  {
    if a.Advance? || a.GiveUp? || a.Watch? || a.EndContext? {
      CallSpends(s, a);
      RemainingAfter(s.calls, a.id, Perform(s, a).calls[a.id]);
    }
  }

  lemma {:induction false} LastStepSpends(actions: seq<Action>)
    requires actions != [] && Run(actions).Some? && UnderWay(actions[|actions| - 1])
    ensures var front := Run(actions[..|actions| - 1]);
      front.Some? && Budget(Run(actions).value) < Budget(front.value)
  {
    var front := actions[..|actions| - 1];
    RunKeeps(front);
    StepsSpend(Run(front).value, actions[|actions| - 1]);
  }

  /** In any order, the steps under way come to an end: after the first n there are at most the budget then left. */
  lemma {:induction false} EveryScheduleEnds(actions: seq<Action>, n: nat)
    requires n <= |actions| && Run(actions).Some?
    requires forall i :: n <= i < |actions| ==> UnderWay(actions[i])
    ensures Run(actions[..n]).Some?
    ensures |actions| - n + Budget(Run(actions).value) <= Budget(Run(actions[..n]).value)
    decreases |actions|
  {
    if n == |actions| {
      assert actions[..n] == actions;
    } else {
      var front := actions[..|actions| - 1];
      LastStepSpends(actions);
      EveryScheduleEnds(front, n);
      assert front[..n] == actions[..n];
    }
  }

  lemma {:induction false} MoveOf(s: System, id: nat) returns (a: Action)
    requires id in s.calls && CanMove(s, id)
    ensures Enabled(s, a) && (a.Advance? || a.Watch?)
  {
    if Ready(s, s.calls[id]) {
      a := Advance(id, 0, true);
    } else {
      var onStop :| WatchReady(s.calls[id], onStop);
      a := Watch(id, onStop);
    }
  }

  /** While a call has not returned there is a step that no context has to end for. */
  lemma {:induction false} SomeMove(s: System, id: nat) returns (a: Action)
    requires Inv(s) && id in s.calls && s.calls[id].pc != Done
    ensures Enabled(s, a) && UnderWay(a) && !a.EndContext?
  {
    NoDeadlock(s, id);
    if CanMove(s, id) {
      a := MoveOf(s, id);
    } else if Enabled(s, TakeWriter) {
      a := TakeWriter;
    } else if Enabled(s, CloseHandle) {
      a := CloseHandle;
    } else if Enabled(s, ReleaseWriter) {
      a := ReleaseWriter;
    } else {
      var reader :| reader in s.readers && reader in s.calls && CanMove(s, reader);
      a := MoveOf(s, reader);
    }
  }

  lemma {:induction false} RunMoves(actions: seq<Action>, id: nat) returns (a: Action)
    requires Run(actions).Some? && id in Run(actions).value.calls && Run(actions).value.calls[id].pc != Done
    ensures UnderWay(a) && !a.EndContext? && Run(actions + [a]).Some?
    ensures Budget(Run(actions + [a]).value) < Budget(Run(actions).value)
    ensures Run(actions + [a]).value.calls.Keys == Run(actions).value.calls.Keys
  {
    var s := Run(actions).value;
    RunKeeps(actions);
    a := SomeMove(s, id);
    StepsSpend(s, a);
    RunStep(actions, a);
  }

  /** Every run can go on until all its calls have returned, whether or not a context ends. */
  lemma {:induction false} CallsCanFinish(actions: seq<Action>) returns (full: seq<Action>)
    requires Run(actions).Some?
    ensures actions <= full && Run(full).Some? && Run(full).value.calls.Keys == Run(actions).value.calls.Keys
    ensures forall i :: |actions| <= i < |full| ==> UnderWay(full[i]) && !full[i].EndContext?
    ensures forall id :: id in Run(full).value.calls ==> Run(full).value.calls[id].pc == Done
    decreases Budget(Run(actions).value)
  {
    var s := Run(actions).value;
    if id :| id in s.calls && s.calls[id].pc != Done {
      var a := RunMoves(actions, id);
      full := CallsCanFinish(actions + [a]);
    } else {
      full := actions;
    }
  }

  /** And it cannot stop before: when only contexts can still end, every call has returned. */
  lemma {:induction false} StuckMeansDone(actions: seq<Action>, id: nat)
    requires Run(actions).Some? && id in Run(actions).value.calls
    requires forall a :: Enabled(Run(actions).value, a) ==> !UnderWay(a) || a.EndContext?
    ensures Run(actions).value.calls[id].pc == Done
  {
    RunKeeps(actions);
    if Run(actions).value.calls[id].pc != Done {
      var a := SomeMove(Run(actions).value, id);
    }
  }
}

/** One connection's output buffer between concurrent writers and the event loop: the locked
    appends and Flush of conn.go, and `writeConn` and the ends of `readConn` in server.go. */
module OutputFlow {
  import opened Bytes

  type Id = nat

  /** Writer 0 is the handler the loop itself runs; the others are any goroutines. */
  const HANDLER: Id := 0

  /** Inside an append, `c.out = append(c.out, p...)` is a read and a later store. */
  datatype Pc =
    | Idle
    | Wanting(p: bytes)
    | Locked(p: bytes)
    | Holding(p: bytes, local: bytes)
    | Stored
    | Triggering

  /** `dirty`: the writer has stored output and not flushed since. */
  datatype Writer = Writer(pc: Pc, dirty: bool)

  /** What `writeConn` does to the poller once it has released the lock. */
  datatype Mod = ModRead | ModReadWrite | ModClose

  datatype Loop =
    | Away
    | AtWrite(thenRead: bool)
    | Inside(thenRead: bool)                          // lock taken
    | Handed(thenRead: bool, n: nat, mod: Mod)        // `n` bytes given to the kernel
    | Leaving(thenRead: bool, mod: Mod)               // `c.out` cut, lock still held
    | Modding(thenRead: bool, mod: Mod)               // lock released
    | AtRead
    | ReadAgain                                       // the read said EAGAIN, ModRead is next
    | Handling
    | Tail                                            // handler returned, `len(c.out)` is next

  datatype Owner = ByWriter(w: Id) | ByLoop

  datatype State = State(
    out: bytes,
    lock: Option<Owner>,
    armed: bool,              // the poller watches for writability
    queue: nat,               // entries for this descriptor in the trigger queue
    closed: bool,
    writers: map<Id, Writer>,
    loop: Loop,
    sent: bytes,              // history: bytes the kernel has taken
    appended: bytes)          // history: bytes ever appended, in order

  function Initial(): (s: State) {
    State([], None, false, 0, false, map[], Away, [], [])
  }

  function At(s: State, w: Id): (x: Writer) {
    if w in s.writers then s.writers[w] else Writer(Idle, false)
  }

  function Put(s: State, w: Id, x: Writer): (s': State) {
    s.(writers := s.writers[w := x])
  }

  /** How a write call ended: everything, a part, EAGAIN after `n` bytes, or an error. */
  datatype Sys = Full(closeAfter: bool) | Short(n: nat) | Again(n: nat) | Broken

  /** How a read event ended. `Request` runs a handler. */
  datatype Got = Closes | Eagain | Incomplete | Request

  /** How a handler returned: to the tail of `readConn`; with the connection to be closed; or, in
      WebSocket mode with half a frame left over, straight out of `readConn`. */
  datatype Return = ToTail | ToClose | ToWait

  datatype Action =
    | Want(w: Id, p: bytes, checks: bool)     // `Write` checks the closed flag, `_write*` do not
    | Lock(w: Id)
    | ReadOut(w: Id)
    | Store(w: Id)
    | Unlock(w: Id)
    | Flush(w: Id)
    | Trigger(w: Id)
    | Stray                                   // a trigger for a descriptor number used before
    | Pop
    | PollWrite(andRead: bool)                // reported before the trigger queue was drained, perhaps
    | PollRead
    | LoopLock
    | Syscall(sys: Sys)
    | Cut
    | LoopUnlock
    | LoopMod
    | LoopRead(got: Got)
    | EagainModRead
    | HandlerReturns(how: Return)
    | TailCheck
    | TimeOut                                 // or the close after an EOF event

  predicate MayAct(s: State, w: Id) {
    w == HANDLER ==> s.loop.Handling?
  }

  predicate Enabled(s: State, a: Action) {
    match a
    case Want(w, _, _) => At(s, w).pc.Idle? && MayAct(s, w)
    case Lock(w) => At(s, w).pc.Wanting? && s.lock.None?
    case ReadOut(w) => At(s, w).pc.Locked?
    case Store(w) => At(s, w).pc.Holding?
    case Unlock(w) => At(s, w).pc.Stored?
    case Flush(w) => At(s, w).pc.Idle? && MayAct(s, w)
    case Trigger(w) => At(s, w).pc.Triggering?
    case Stray => true
    case Pop => s.loop.Away? && s.queue > 0
    case PollWrite(_) => s.loop.Away? && !s.closed
    case PollRead => s.loop.Away? && !s.closed
    case LoopLock => s.loop.AtWrite? && s.lock.None?
    case Syscall(sys) =>
      s.loop.Inside? && (sys.Short? ==> sys.n < |s.out|) && (sys.Again? ==> sys.n <= |s.out|)
    case Cut => s.loop.Handed?
    case LoopUnlock => s.loop.Leaving?
    case LoopMod => s.loop.Modding?
    case LoopRead(_) => s.loop.AtRead?
    case EagainModRead => s.loop.ReadAgain?
    case HandlerReturns(_) => s.loop.Handling? && At(s, HANDLER).pc.Idle?
    case TailCheck => s.loop.Tail?
    case TimeOut => s.loop.Away?
  }

  /** After `writeConn`: the same event may go on to read. */
  function AfterWrite(thenRead: bool): Loop {
    if thenRead then AtRead else Away
  }

  function Step(s: State, a: Action): (s': State)
    requires Enabled(s, a)
  {
    match a
    case Want(w, p, checks) =>
      if checks && s.closed then s else Put(s, w, At(s, w).(pc := Wanting(p)))
    case Lock(w) => Put(s, w, At(s, w).(pc := Locked(At(s, w).pc.p))).(lock := Some(ByWriter(w)))
    case ReadOut(w) => Put(s, w, At(s, w).(pc := Holding(At(s, w).pc.p, s.out)))
    case Store(w) =>
      var Holding(p, local) := At(s, w).pc;
      Put(s, w, Writer(Stored, true)).(out := local + p, appended := s.appended + p)
    case Unlock(w) => Put(s, w, At(s, w).(pc := Idle)).(lock := None)
    case Flush(w) => Put(s, w, if s.closed then Writer(Idle, false) else At(s, w).(pc := Triggering))
    case Trigger(w) => Put(s, w, Writer(Idle, false)).(queue := s.queue + 1)
    case Stray => s.(queue := s.queue + 1)
    case Pop => s.(queue := s.queue - 1, loop := if s.closed then Away else AtWrite(false))
    case PollWrite(andRead) => s.(loop := AtWrite(andRead))
    case PollRead => s.(loop := AtRead)
    case LoopLock => s.(loop := Inside(s.loop.thenRead), lock := Some(ByLoop))
    case Syscall(sys) =>
      var r := s.loop.thenRead;
      if s.out == [] then s.(loop := Leaving(r, ModRead))
      else
        (match sys
         case Full(closeAfter) =>
           s.(loop := Handed(r, |s.out|, if closeAfter then ModClose else ModRead), sent := s.sent + s.out)
         case Short(n) => s.(loop := Handed(r, n, ModReadWrite), sent := s.sent + s.out[..n])
         case Again(n) => s.(loop := Handed(r, n, ModReadWrite), sent := s.sent + s.out[..n])
         case Broken => s.(loop := Leaving(r, ModClose)))
    case Cut =>
      var Handed(r, n, mod) := s.loop;
      s.(out := if n <= |s.out| then s.out[n..] else [], loop := Leaving(r, mod))
    case LoopUnlock => s.(lock := None, loop := Modding(s.loop.thenRead, s.loop.mod))
    case LoopMod =>
      (match s.loop.mod
       case ModRead => s.(armed := false, loop := AfterWrite(s.loop.thenRead))
       case ModReadWrite => s.(armed := true, loop := AfterWrite(s.loop.thenRead))
       case ModClose => s.(closed := true, loop := AfterWrite(s.loop.thenRead)))
    case LoopRead(got) =>
      (match got
       case Closes => s.(closed := true, loop := Away)
       case Eagain => s.(loop := ReadAgain)
       case Incomplete => s.(loop := Away)
       case Request => s.(loop := Handling))
    case EagainModRead => s.(armed := false, loop := Away)
    case HandlerReturns(how) =>
      (match how
       case ToTail => Put(s, HANDLER, Writer(Idle, false)).(loop := Tail)
       case ToClose => Put(s, HANDLER, Writer(Idle, false)).(closed := true, loop := Away)
       case ToWait => Put(s, HANDLER, Writer(Idle, false)).(loop := Away))
    case TailCheck => s.(loop := if s.out != [] then AtWrite(false) else Away)
    case TimeOut => s.(closed := true)
  }

  // ----- runs

  /** The state a run reaches from a fresh connection, or None if some step was not possible. */
  function After(run: seq<Action>): (r: Option<State>)
    decreases |run|
  {
    if run == [] then Some(Initial())
    else
      match After(run[..|run| - 1])
      case None => None
      case Some(s) => if Enabled(s, run[|run| - 1]) then Some(Step(s, run[|run| - 1])) else None
  }

  // ----- mutual exclusion and conservation

  predicate InCritical(pc: Pc) { pc.Locked? || pc.Holding? || pc.Stored? }

  predicate LoopCritical(l: Loop) { l.Inside? || l.Handed? || l.Leaving? }

  /** The lock has one holder, a writer's copy of the buffer is the buffer, and what the loop gave
      to the kernel is still the buffer's beginning. */
  ghost predicate Exclusive(s: State) {
    && (forall w :: w in s.writers && InCritical(s.writers[w].pc) ==> s.lock == Some(ByWriter(w)))
    && (LoopCritical(s.loop) ==> s.lock == Some(ByLoop))
    && (s.loop.Handed? ==> s.loop.n <= |s.out| && (s.loop.mod.ModRead? ==> s.loop.n == |s.out|))
    && (s.loop.Leaving? && s.loop.mod.ModRead? ==> s.out == [])
    && (forall w :: w in s.writers && s.writers[w].pc.Holding? ==> s.writers[w].pc.local == s.out)
  }

  /** Output the kernel does not have yet. */
  function Unsent(s: State): (b: bytes) {
    if s.loop.Handed? && s.loop.n <= |s.out| then s.out[s.loop.n..] else s.out
  }

  ghost predicate Conserved(s: State) {
    s.sent + Unsent(s) == s.appended
  }

  predicate OfWriter(a: Action) {
    a.Want? || a.Lock? || a.ReadOut? || a.Store? || a.Unlock? || a.Flush? || a.Trigger?
  }

  predicate OfWriteConn(a: Action) {
    a.LoopLock? || a.Syscall? || a.Cut? || a.LoopUnlock?
  }

  lemma ExclusiveStep(s: State, a: Action)
    requires Exclusive(s) && Enabled(s, a)
    ensures Exclusive(Step(s, a))
  {
    hide Exclusive;
    if OfWriter(a) {
      ExclusiveByWriter(s, a);
    } else if OfWriteConn(a) {
      ExclusiveByWriteConn(s, a);
    } else {
      ExclusiveByLoop(s, a);
    }
  }

  lemma ExclusiveByWriter(s: State, a: Action)
    requires Exclusive(s) && Enabled(s, a) && OfWriter(a)
    ensures Exclusive(Step(s, a))
  {
  }

  lemma ExclusiveByWriteConn(s: State, a: Action)
    requires Exclusive(s) && Enabled(s, a) && OfWriteConn(a)
    ensures Exclusive(Step(s, a))
  {
  }

  lemma ExclusiveByLoop(s: State, a: Action)
    requires Exclusive(s) && Enabled(s, a) && !OfWriter(a) && !OfWriteConn(a)
    ensures Exclusive(Step(s, a))
  {
    var s' := Step(s, a);
    assert s'.out == s.out && s'.lock == s.lock && (s'.loop == s.loop || !LoopCritical(s'.loop));
    if a.HandlerReturns? {
      assert s'.writers == s.writers[HANDLER := Writer(Idle, false)];
    } else {
      assert s'.writers == s.writers;
    }
  }

  lemma ConservedStep(s: State, a: Action)
    requires Exclusive(s) && Conserved(s) && Enabled(s, a)
    ensures Conserved(Step(s, a))
  {
    hide Exclusive;
    hide Unsent;
    hide Step;
    if a.Store? {
      StoreConserves(s, a.w);
    } else if a.Syscall? {
      SyscallConserves(s, a.sys);
    } else if a.Cut? {
      CutKeeps(s);
    } else {
      OthersKeep(s, a);
    }
  }

  /** Cutting the buffer drops what the kernel has. */
  lemma CutKeeps(s: State)
    requires Exclusive(s) && Enabled(s, Cut)
    ensures var s' := Step(s, Cut); Unsent(s') == Unsent(s) && s'.sent == s.sent && s'.appended == s.appended
  {
  }

  lemma OthersKeep(s: State, a: Action)
    requires Enabled(s, a) && !a.Store? && !a.Syscall? && !a.Cut?
    ensures var s' := Step(s, a); Unsent(s') == Unsent(s) && s'.sent == s.sent && s'.appended == s.appended
  {
    var s' := Step(s, a);
    assert s'.out == s.out && s'.sent == s.sent && s'.appended == s.appended;
    assert !s.loop.Handed? ==> !s'.loop.Handed?;
    assert s.loop.Handed? ==> s'.loop == s.loop;
  }

  lemma StoreConserves(s: State, w: Id)
    requires Exclusive(s) && Conserved(s) && Enabled(s, Store(w))
    ensures Conserved(Step(s, Store(w)))
  {
    var s' := Step(s, Store(w));
    assert Unsent(s') == Unsent(s) + At(s, w).pc.p;
  }

  lemma SyscallConserves(s: State, sys: Sys)
    requires Conserved(s) && Enabled(s, Syscall(sys))
    ensures Conserved(Step(s, Syscall(sys)))
  {
    var s' := Step(s, Syscall(sys));
    if s'.loop.Handed? {
      var n := s'.loop.n;
      assert s.out[..|s.out|] == s.out;
      assert s'.sent == s.sent + s.out[..n] && Unsent(s') == s.out[n..];
      Assoc(s.sent, s.out[..n], s.out[n..]);
      assert s.out == s.out[..n] + s.out[n..];
    }
  }

  // ----- lost flushes

  ghost predicate Dirty(s: State) {
    exists w :: w in s.writers && s.writers[w].dirty
  }

  ghost predicate DirtyElsewhere(s: State) {
    exists w :: w in s.writers && w != HANDLER && s.writers[w].dirty
  }

  /** An open connection with pending output has write interest armed, or is in the trigger queue,
      or a writer has yet to flush, or the loop is still busy with it. */
  ghost predicate NoLostFlush(s: State) {
    !s.closed && s.out != [] ==> s.armed || s.queue > 0 || Dirty(s) || !s.loop.Away?
  }

  /** The two steps that can leave pending output to nobody: ModRead after a read that said EAGAIN,
      which drops write interest without looking at the output, and a WebSocket handler that
      returns without flushing while half a frame is left over. */
  ghost predicate Strands(s: State, a: Action) {
    && !s.closed && s.out != [] && s.queue == 0
    && ((a.EagainModRead? && !Dirty(s)) || (a == HandlerReturns(ToWait) && !s.armed && !DirtyElsewhere(s)))
  }

  /** What each point of the loop guarantees about pending output. */
  ghost predicate Covered(s: State) {
    !s.closed && s.out != [] ==>
      match s.loop
      case AtWrite(_) => true
      case Inside(_) => true
      case Handed(_, _, _) => true
      case Leaving(_, _) => true
      case Tail => true
      case Modding(_, mod) => mod.ModRead? ==> s.queue > 0 || Dirty(s)
      case _ => s.armed || s.queue > 0 || Dirty(s)
  }

  lemma DirtyKept(s: State, s': State, w: Id, x: Writer)
    requires s'.writers == s.writers[w := x] && (At(s, w).dirty ==> x.dirty)
    ensures Dirty(s) ==> Dirty(s')
  {
    if Dirty(s) {
      var u :| u in s.writers && s.writers[u].dirty;
      assert s'.writers[u].dirty;
    }
  }

  lemma CoveredByWriter(s: State, a: Action)
    requires Exclusive(s) && Covered(s) && Enabled(s, a) && OfWriter(a)
    ensures Covered(Step(s, a))
  {
    var s' := Step(s, a);
    if s'.writers != s.writers {
      if a.Store? {
        assert s'.writers[a.w].dirty;
      } else if !a.Trigger? && !s.closed {
        DirtyKept(s, s', a.w, s'.writers[a.w]);
      }
    }
  }

  lemma CoveredByLoop(s: State, a: Action)
    requires Exclusive(s) && Covered(s) && Enabled(s, a) && !OfWriter(a) && !a.HandlerReturns?
    ensures Covered(Step(s, a)) <==> !Strands(s, a)
  {
    var s' := Step(s, a);
    assert s'.writers == s.writers;
    assert Dirty(s') == Dirty(s);
  }

  lemma CoveredByReturn(s: State, how: Return)
    requires Exclusive(s) && Covered(s) && Enabled(s, HandlerReturns(how))
    ensures Covered(Step(s, HandlerReturns(how))) <==> !Strands(s, HandlerReturns(how))
  {
    var s' := Step(s, HandlerReturns(how));
    if DirtyElsewhere(s) {
      var u :| u in s.writers && u != HANDLER && s.writers[u].dirty;
      assert s'.writers[u].dirty;
    }
    if Dirty(s') {
      var u :| u in s'.writers && s'.writers[u].dirty;
      assert u != HANDLER && s.writers[u].dirty;
    }
  }

  /** A step from a covered state leaves it covered, and loses no flush, exactly when it is not one
      of the two stranding steps. */
  lemma StepLosesOnlyByStranding(s: State, a: Action)
    requires Exclusive(s) && Covered(s) && Enabled(s, a)
    ensures Covered(Step(s, a)) <==> !Strands(s, a)
    ensures NoLostFlush(Step(s, a)) <==> !Strands(s, a)
  {
    if OfWriter(a) {
      CoveredByWriter(s, a);
    } else if a.HandlerReturns? {
      CoveredByReturn(s, a.how);
    } else {
      CoveredByLoop(s, a);
    }
    if Strands(s, a) { StrandedAway(s, a); }
  }

  lemma StrandedAway(s: State, a: Action)
    requires Enabled(s, a) && Strands(s, a)
    ensures var s' := Step(s, a);
            s'.loop.Away? && !s'.closed && s'.out != [] && s'.queue == 0 && !s'.armed
  {
  }

  // ----- results over runs

  /** In every interleaving: one holder of the lock at a time, and the bytes the kernel has taken
      followed by the unsent buffer are all bytes ever appended, in order. */
  lemma {:induction false} OutputConserved(run: seq<Action>)
    requires After(run).Some?
    ensures Exclusive(After(run).value) && Conserved(After(run).value)
    decreases |run|
  {
    if run != [] {
      var before, a := run[..|run| - 1], run[|run| - 1];
      OutputConserved(before);
      ExclusiveStep(After(before).value, a);
      ConservedStep(After(before).value, a);
    }
  }

  ghost predicate NeverStrands(run: seq<Action>)
    requires After(run).Some?
    decreases |run|
  {
    run == [] || (NeverStrands(run[..|run| - 1]) && !Strands(After(run[..|run| - 1]).value, run[|run| - 1]))
  }

  ghost predicate NeverLost(run: seq<Action>)
    requires After(run).Some?
    decreases |run|
  {
    NoLostFlush(After(run).value) && (run == [] || NeverLost(run[..|run| - 1]))
  }

  /** Over whole runs: no state of a run loses a flush if and only if no step of it strands output. */
  lemma {:induction false} FlushesLostOnlyByStranding(run: seq<Action>)
    requires After(run).Some?
    ensures NeverLost(run) <==> NeverStrands(run)
    ensures NeverStrands(run) ==> Covered(After(run).value)
    decreases |run|
  {
    if run != [] {
      var before, a := run[..|run| - 1], run[|run| - 1];
      FlushesLostOnlyByStranding(before);
      OutputConserved(before);
      if NeverStrands(before) { StepLosesOnlyByStranding(After(before).value, a); }
    }
  }

  /** A run in which no read says EAGAIN and no WebSocket handler leaves half a frame behind loses
      no flush, whatever the writers and the kernel do. */
  lemma {:induction false} QuietReadsLoseNothing(run: seq<Action>)
    requires After(run).Some?
    requires EagainModRead !in run && HandlerReturns(ToWait) !in run
    ensures NeverLost(run)
    decreases |run|
  {
    if run != [] {
      QuietReadsLoseNothing(run[..|run| - 1]);
      assert run[|run| - 1] in run;
      FlushesLostOnlyByStranding(run[..|run| - 1]);
    }
    FlushesLostOnlyByStranding(run);
  }

  // ----- output can be stranded

  /** A writer appends two bytes and flushes; the loop's write takes one and arms write interest;
      then a read event says EAGAIN. */
  const STRANDING: seq<Action> := [
    Want(1, [7, 8], true), Lock(1), ReadOut(1), Store(1), Unlock(1), Flush(1), Trigger(1),
    Pop, LoopLock, Syscall(Short(1)), Cut, LoopUnlock, LoopMod,
    PollRead, LoopRead(Eagain), EagainModRead]

  /** One more step of a run. */
  lemma Next(run: seq<Action>, k: nat, s: State) returns (s': State)
    requires k < |run| && After(run[..k]) == Some(s) && Enabled(s, run[k])
    ensures s' == Step(s, run[k]) && After(run[..k + 1]) == Some(s')
  {
    hide Enabled;
    hide Step;
    assert run[..k + 1][..k] == run[..k];
    s' := Step(s, run[k]);
  }

  lemma Begun(run: seq<Action>)
    ensures After(run[..0]) == Some(Initial())
  {
  }

  /** A state of a run with one writer `w`, standing at `x`. */
  ghost predicate Stands(s: State, w: Id, x: Writer, lock: Option<Owner>, loop: Loop, out: bytes, queue: nat) {
    && !s.closed && At(s, w) == x && (forall u :: u in s.writers ==> u == w)
    && s.lock == lock && s.loop == loop && s.out == out && s.queue == queue
  }

  lemma StrandingLocked() returns (s: State)
    ensures After(STRANDING[..2]) == Some(s) && Stands(s, 1, Writer(Locked([7, 8]), false), Some(ByWriter(1)), Away, [], 0)
  {
    hide After;
    Begun(STRANDING);
    s := Next(STRANDING, 0, Initial());
    s := Next(STRANDING, 1, s);
  }

  lemma StrandingStored() returns (s: State)
    ensures After(STRANDING[..4]) == Some(s) && Stands(s, 1, Writer(Stored, true), Some(ByWriter(1)), Away, [7, 8], 0)
  {
    hide After;
    s := StrandingLocked();
    s := Next(STRANDING, 2, s);
    s := Next(STRANDING, 3, s);
  }

  lemma StrandingFlushed() returns (s: State)
    ensures After(STRANDING[..6]) == Some(s) && Stands(s, 1, Writer(Triggering, true), None, Away, [7, 8], 0)
  {
    hide After;
    s := StrandingStored();
    s := Next(STRANDING, 4, s);
    s := Next(STRANDING, 5, s);
  }

  lemma StrandingPopped() returns (s: State)
    ensures After(STRANDING[..8]) == Some(s) && Stands(s, 1, Writer(Idle, false), None, AtWrite(false), [7, 8], 0)
  {
    hide After;
    s := StrandingFlushed();
    s := Next(STRANDING, 6, s);
    s := Next(STRANDING, 7, s);
  }

  lemma StrandingHanded() returns (s: State)
    ensures After(STRANDING[..10]) == Some(s)
    ensures Stands(s, 1, Writer(Idle, false), Some(ByLoop), Handed(false, 1, ModReadWrite), [7, 8], 0)
  {
    hide After;
    s := StrandingPopped();
    s := Next(STRANDING, 8, s);
    s := Next(STRANDING, 9, s);
  }

  lemma StrandingWritten() returns (s: State)
    ensures After(STRANDING[..13]) == Some(s) && Stands(s, 1, Writer(Idle, false), None, Away, [8], 0)
  {
    hide After;
    s := StrandingHanded();
    s := Next(STRANDING, 10, s);
    s := Next(STRANDING, 11, s);
    s := Next(STRANDING, 12, s);
  }

  /** After it a byte is pending on an open connection, with nothing left to send it. */
  lemma FlushCanBeLost()
    ensures After(STRANDING).Some? && !NoLostFlush(After(STRANDING).value)
  {
    hide After;
    var s := StrandingWritten();
    s := Next(STRANDING, 13, s);
    s := Next(STRANDING, 14, s);
    s := Next(STRANDING, 15, s);
    assert STRANDING[..16] == STRANDING;
  }

  /** A WebSocket handler appends a byte without flushing and returns with half a frame left over. */
  const HALF_FRAME: seq<Action> := [
    PollRead, LoopRead(Request), Want(HANDLER, [7], true), Lock(HANDLER), ReadOut(HANDLER), Store(HANDLER),
    Unlock(HANDLER), HandlerReturns(ToWait)]

  lemma HalfFrameWanted() returns (s: State)
    ensures After(HALF_FRAME[..3]) == Some(s) && Stands(s, HANDLER, Writer(Wanting([7]), false), None, Handling, [], 0) && !s.armed
  {
    hide After;
    Begun(HALF_FRAME);
    s := Next(HALF_FRAME, 0, Initial());
    s := Next(HALF_FRAME, 1, s);
    s := Next(HALF_FRAME, 2, s);
  }

  lemma HalfFrameStored() returns (s: State)
    ensures After(HALF_FRAME[..6]) == Some(s)
    ensures Stands(s, HANDLER, Writer(Stored, true), Some(ByWriter(HANDLER)), Handling, [7], 0) && !s.armed
  {
    hide After;
    s := HalfFrameWanted();
    s := Next(HALF_FRAME, 3, s);
    s := Next(HALF_FRAME, 4, s);
    s := Next(HALF_FRAME, 5, s);
  }

  /** After it, too, a byte is pending on an open connection with nothing left to send it. */
  lemma UnflushedReplyCanBeLost()
    ensures After(HALF_FRAME).Some? && !NoLostFlush(After(HALF_FRAME).value)
  {
    hide After;
    var s := HalfFrameStored();
    s := Next(HALF_FRAME, 6, s);
    s := Next(HALF_FRAME, 7, s);
    assert HALF_FRAME[..8] == HALF_FRAME;
  }

  // ----- closing

  /** The steps that close the connection: a failed write, a drained one of a WebSocket the server
      has closed, a failed or empty read, a handler that wants no more, and the timeout. */
  ghost predicate Closing(s: State, a: Action) {
    || (a.LoopMod? && s.loop.Modding? && s.loop.mod.ModClose?)
    || a == LoopRead(Closes) || a == HandlerReturns(ToClose) || a.TimeOut?
  }

  /** A connection becomes closed by exactly these steps, and never opens again. */
  lemma ClosedIff(s: State, a: Action)
    requires Enabled(s, a)
    ensures Step(s, a).closed <==> s.closed || Closing(s, a)
  {
  }

  /** Write interest is armed exactly by a write that left output behind, and dropped exactly by a
      write that left none and by a read that said EAGAIN. */
  lemma ArmedIff(s: State, a: Action)
    requires Enabled(s, a)
    ensures Step(s, a).armed <==>
            if a.LoopMod? && s.loop.mod.ModReadWrite? then true
            else if (a.LoopMod? && s.loop.mod.ModRead?) || a.EagainModRead? then false
            else s.armed
  {
  }

  /** A descriptor enters the trigger queue only by a flush of an open connection, or as a stray of
      its number's earlier use. */
  lemma QueuedIff(s: State, a: Action)
    requires Enabled(s, a)
    ensures Step(s, a).queue == s.queue + (if a.Trigger? || a.Stray? then 1 else if a.Pop? then -1 else 0)
    ensures a.Flush? ==> (At(Step(s, a), a.w).pc.Triggering? <==> !s.closed)
  {
  }

  /** `Write` appends nothing to a closed connection; the response writers do not look. */
  lemma WriteChecksClosed(s: State, w: Id, p: bytes, checks: bool)
    requires Enabled(s, Want(w, p, checks))
    ensures if checks && s.closed then Step(s, Want(w, p, checks)) == s
            else At(Step(s, Want(w, p, checks)), w).pc == Wanting(p)
  {
  }

  // ----- one undisturbed write

  /** What `writeConn` comes to when nobody disturbs it: the kernel takes a front part of the output
      and the rest stays, first byte first. */
  function Wrote(s: State, sys: Sys): (s': State)
    requires s.loop.AtWrite?
  {
    var next := AfterWrite(s.loop.thenRead);
    if s.out == [] then s.(armed := false, loop := next)
    else
      match sys
      case Full(closeAfter) =>
        var s1 := s.(out := [], sent := s.sent + s.out, loop := next);
        if closeAfter then s1.(closed := true) else s1.(armed := false)
      case Short(n) => WroteSome(s, n)
      case Again(n) => WroteSome(s, n)
      case Broken => s.(closed := true, loop := next)
  }

  function WroteSome(s: State, n: nat): (s': State)
    requires s.loop.AtWrite?
  {
    if n > |s.out| then s
    else s.(out := s.out[n..], sent := s.sent + s.out[..n], armed := true, loop := AfterWrite(s.loop.thenRead))
  }

  /** The steps of `writeConn` up to the kernel's answer. */
  function Answered(s: State, sys: Sys): (s': State)
    requires s.loop.AtWrite? && s.lock.None? && (sys.Short? ==> sys.n < |s.out|) && (sys.Again? ==> sys.n <= |s.out|)
    ensures s'.loop.Handed? || s'.loop.Leaving?
  {
    Step(Step(s, LoopLock), Syscall(sys))
  }

  /** And those after it. */
  function Released(s: State): (s': State)
    requires s.loop.Handed? || s.loop.Leaving?
  {
    var s1 := if s.loop.Handed? then Step(s, Cut) else s;
    Step(Step(s1, LoopUnlock), LoopMod)
  }

  lemma WriteAlone(s: State, sys: Sys)
    requires s.loop.AtWrite? && s.lock.None? && (sys.Short? ==> sys.n < |s.out|) && (sys.Again? ==> sys.n <= |s.out|)
    ensures Released(Answered(s, sys)) == Wrote(s, sys)
  {
    var r, s2 := s.loop.thenRead, Answered(s, sys);
    hide Answered;
    AnsweredIs(s, sys);
    assert s.out[|s.out|..] == [];
  }

  lemma AnsweredIs(s: State, sys: Sys)
    requires s.loop.AtWrite? && s.lock.None? && (sys.Short? ==> sys.n < |s.out|) && (sys.Again? ==> sys.n <= |s.out|)
    ensures var s', r := Answered(s, sys), s.loop.thenRead;
            s' ==
            if s.out == [] then s.(lock := Some(ByLoop), loop := Leaving(r, ModRead))
            else if sys.Broken? then s.(lock := Some(ByLoop), loop := Leaving(r, ModClose))
            else if sys.Full? then
              s.(lock := Some(ByLoop), sent := s.sent + s.out, loop := Handed(r, |s.out|, if sys.closeAfter then ModClose else ModRead))
            else s.(lock := Some(ByLoop), sent := s.sent + s.out[..sys.n], loop := Handed(r, sys.n, ModReadWrite))
  {
  }

  /** Nothing is sent on a connection that was closed while the loop was elsewhere. */
  lemma ClosedStays(s: State, a: Action)
    requires s.closed && s.loop.Away? && Enabled(s, a)
    ensures var s' := Step(s, a); s'.closed && s'.loop.Away? && s'.sent == s.sent && s'.armed == s.armed
  {
  }

  /** Over runs: once closed with the loop elsewhere, a connection sends nothing more. */
  lemma {:induction false} ClosedForGood(run: seq<Action>, k: nat)
    requires After(run).Some? && k <= |run| && After(run[..k]).Some?
    requires After(run[..k]).value.closed && After(run[..k]).value.loop.Away?
    ensures var s := After(run).value; s.closed && s.loop.Away? && s.sent == After(run[..k]).value.sent
    decreases |run|
  {
    if k == |run| {
      assert run[..k] == run;
    } else {
      var before := run[..|run| - 1];
      assert before[..k] == run[..k];
      ClosedForGood(before, k);
      ClosedStays(After(before).value, run[|run| - 1]);
    }
  }

  /** Armed write interest and the trigger queue both lead to a write: from a state at rest that has
      either, one poller step and an undisturbed full write send everything that is pending. */
  lemma CoveredIsSent(s: State) returns (a: Action)
    requires !s.closed && s.loop.Away? && s.lock.None? && s.out != [] && (s.armed || s.queue > 0)
    ensures Enabled(s, a) && Step(s, a).loop.AtWrite? && Step(s, a).lock.None? && !Step(s, a).closed
    ensures var s' := Wrote(Step(s, a), Full(false)); s'.out == [] && s'.sent == s.sent + s.out && s'.loop.Away?
  {
    a := if s.queue > 0 then Pop else PollWrite(false);
  }

  /** Output a handler leaves behind is written before the loop turns elsewhere. */
  lemma TailIsSent(s: State)
    requires s.loop.Tail? && s.out != []
    ensures Enabled(s, TailCheck) && Wrote(Step(s, TailCheck), Full(false)).sent == s.sent + s.out
  {
  }
}

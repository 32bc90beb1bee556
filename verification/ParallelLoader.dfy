// Model of parallel_insmod.c: worker threads share one line reader (guarded by
// `lock`), hold it across a barrier on the counter `insmoding` (guarded by
// `mutex`, with the condition variable `cond`), fork one insmod child per
// module line and wait for *any* child. One action is one atomic step of one
// thread, of main, or of a child.
module ParallelLoader {
  import opened Wrappers
  import opened LevelledFile

  /** Where a worker stands. The numbers are indices of the module line it carries. */
  datatype PC =
    | Unborn                    // main has not created it yet
    | WantLock                  // about to lock `lock`
    | Reading                   // holds `lock`, about to read a line
    | HdrWantMutex              // read a header, about to lock `mutex`
    | HdrTest                   // holds `mutex`, about to test insmoding
    | HdrAsleep                 // inside pthread_cond_wait, `mutex` released
    | HdrWoken                  // woken, about to take `mutex` back
    | HdrPassed                 // saw insmoding == 0, still holds `mutex`
    | ModWantMutex(line: nat)   // read a module line, about to lock `mutex`
    | ModCounting(line: nat)    // holds `mutex`, about to increment
    | ModCounted(line: nat)     // incremented, about to unlock `mutex`
    | ModUnlock(line: nat)      // about to unlock `lock`
    | EofUnlock                 // end of file, about to unlock `lock`
    | Forking(line: nat)        // about to vfork and exec insmod
    | Waiting                   // parent, inside wait(NULL)
    | PutWantMutex              // about to lock `mutex` in put_module
    | PutTest                   // holds `mutex`, about to decrement
    | PutSignal                 // decremented, about to test for zero and signal
    | PutUnlock                 // about to unlock `mutex`
    | Done

  /** Children and the history `handed` are named by the line they come from. */
  datatype State = State(
    pos: nat,                   // lines read so far
    insmoding: nat,
    curHeight: nat,
    lock: Option<nat>,          // owner
    mutex: Option<nat>,         // owner
    main: nat,                  // threads created, then |threads| + threads joined
    threads: seq<PC>,
    running: set<nat>,          // children that have not exited
    zombies: set<nat>,          // exited, not yet reaped
    reaped: set<nat>,
    handed: seq<nat>            // module lines in the order they were read
  )

  datatype Action =
    | MainStep
    | Run(t: nat)
    | Reap(t: nat, child: nat)  // wait(NULL) returns some exited child, not necessarily the caller's own
    | NoChild(t: nat)           // wait(NULL) fails because there is no child at all
    | Signal(t: nat, sleeper: nat)
    | Exit(child: nat)
    | Spurious(t: nat)          // a spurious wake-up from pthread_cond_wait

  function Init(workers: nat): State {
    State(0, 0, 0, None, None, 0, seq(workers, _ => Unborn), {}, {}, {}, [])
  }

  predicate HoldsLock(pc: PC) {
    || pc.Reading? || pc.HdrWantMutex? || pc.HdrTest? || pc.HdrAsleep? || pc.HdrWoken? || pc.HdrPassed?
    || pc.ModWantMutex? || pc.ModCounting? || pc.ModCounted? || pc.ModUnlock? || pc.EofUnlock?
  }

  predicate HoldsMutex(pc: PC) {
    || pc.HdrTest? || pc.HdrPassed? || pc.ModCounting? || pc.ModCounted?
    || pc.PutTest? || pc.PutSignal? || pc.PutUnlock?
  }

  predicate WantsMutex(pc: PC) {
    pc.HdrWantMutex? || pc.HdrWoken? || pc.ModWantMutex? || pc.PutWantMutex?
  }

  predicate AtBarrier(pc: PC) {
    pc.HdrWantMutex? || pc.HdrTest? || pc.HdrAsleep? || pc.HdrWoken? || pc.HdrPassed?
  }

  /** The worker carries a module whose insmod has not started. */
  predicate Carries(pc: PC, k: nat) {
    (pc.ModWantMutex? || pc.ModCounting? || pc.ModCounted? || pc.ModUnlock? || pc.Forking?) && pc.line == k
  }

  predicate Asleep(s: State, t: nat) {
    t < |s.threads| && s.threads[t].HdrAsleep?
  }

  predicate NobodyAsleep(s: State) {
    forall t :: 0 <= t < |s.threads| ==> !s.threads[t].HdrAsleep?
  }

  predicate Enabled(lines: seq<Line>, s: State, a: Action) {
    match a
    case MainStep =>
      s.main < |s.threads| || (s.main < 2 * |s.threads| && s.threads[s.main - |s.threads|].Done?)
    case Run(t) =>
      && t < |s.threads|
      && var pc := s.threads[t];
         && !pc.Unborn? && !pc.HdrAsleep? && !pc.Waiting? && !pc.Done?
         && (pc.WantLock? ==> s.lock.None?)
         && (WantsMutex(pc) ==> s.mutex.None?)
         && (pc.PutSignal? && s.insmoding == 0 ==> NobodyAsleep(s))
    case Reap(t, k) => t < |s.threads| && s.threads[t].Waiting? && k in s.zombies
    case NoChild(t) => t < |s.threads| && s.threads[t].Waiting? && s.running + s.zombies == {}
    case Signal(t, u) => t < |s.threads| && s.threads[t].PutSignal? && s.insmoding == 0 && Asleep(s, u)
    case Exit(k) => k in s.running
    case Spurious(t) => Asleep(s, t)
  }

  function Goto(s: State, t: nat, pc: PC): State
    requires t < |s.threads|
  {
    s.(threads := s.threads[t := pc])
  }

  /** One atomic step of worker t on its own. */
  function RunThread(lines: seq<Line>, s: State, t: nat): (s': State)
    requires Enabled(lines, s, Run(t))
    ensures t < |s.threads| == |s'.threads|
  {
    match s.threads[t]
    case WantLock => Goto(s, t, Reading).(lock := Some(t))
    case Reading =>
      if s.pos >= |lines| then Goto(s, t, EofUnlock)
      else if lines[s.pos].Header? then Goto(s, t, HdrWantMutex).(pos := s.pos + 1)
      else Goto(s, t, ModWantMutex(s.pos)).(pos := s.pos + 1, handed := s.handed + [s.pos])
    case HdrWantMutex => Goto(s, t, HdrTest).(mutex := Some(t))
    case HdrTest =>
      if s.insmoding != 0 then Goto(s, t, HdrAsleep).(mutex := None) else Goto(s, t, HdrPassed)
    case HdrWoken => Goto(s, t, HdrTest).(mutex := Some(t))
    case HdrPassed => Goto(s, t, Reading).(mutex := None, curHeight := s.curHeight + 1)
    case ModWantMutex(k) => Goto(s, t, ModCounting(k)).(mutex := Some(t))
    case ModCounting(k) => Goto(s, t, ModCounted(k)).(insmoding := s.insmoding + 1)
    case ModCounted(k) => Goto(s, t, ModUnlock(k)).(mutex := None)
    case ModUnlock(k) => Goto(s, t, Forking(k)).(lock := None)
    case EofUnlock => Goto(s, t, Done).(lock := None)
    case Forking(k) => Goto(s, t, Waiting).(running := s.running + {k})
    case PutWantMutex => Goto(s, t, PutTest).(mutex := Some(t))
    case PutTest => Goto(s, t, PutSignal).(insmoding := if s.insmoding != 0 then s.insmoding - 1 else 0)
    case PutSignal => Goto(s, t, PutUnlock)
    case PutUnlock => Goto(s, t, WantLock).(mutex := None)
    case _ => s
  }

  /** pthread_create for the next worker, or pthread_join on the next one. */
  function MainMoves(s: State): State {
    if s.main < |s.threads| then Goto(s, s.main, WantLock).(main := s.main + 1)
    else s.(main := s.main + 1)
  }

  function ReapChild(s: State, t: nat, k: nat): State
    requires t < |s.threads|
  {
    Goto(s, t, PutWantMutex).(zombies := s.zombies - {k}, reaped := s.reaped + {k})
  }

  function WakeSleeper(s: State, t: nat, u: nat): State
    requires t < |s.threads| && u < |s.threads|
  {
    Goto(Goto(s, t, PutUnlock), u, HdrWoken)
  }

  function ChildExits(s: State, k: nat): State {
    s.(running := s.running - {k}, zombies := s.zombies + {k})
  }

  function Apply(lines: seq<Line>, s: State, a: Action): State
    requires Enabled(lines, s, a)
  {
    match a
    case MainStep => MainMoves(s)
    case Run(t) => RunThread(lines, s, t)
    case Reap(t, k) => ReapChild(s, t, k)
    case NoChild(t) => Goto(s, t, PutWantMutex)
    case Signal(t, u) => WakeSleeper(s, t, u)
    case Exit(k) => ChildExits(s, k)
    case Spurious(t) => Goto(s, t, HdrWoken)
  }

  // ----- Sums over the workers -----

  ghost function Sum(ts: seq<PC>, w: PC -> nat): nat {
    if ts == [] then 0 else Sum(ts[..|ts| - 1], w) + w(ts[|ts| - 1])
  }

  lemma {:induction false} SumUpdate(ts: seq<PC>, w: PC -> nat, i: nat, pc: PC)
    requires i < |ts|
    ensures Sum(ts[i := pc], w) == Sum(ts, w) - w(ts[i]) + w(pc)
  {
    var n := |ts| - 1;
    if i == n {
      assert ts[i := pc][..n] == ts[..n];
    } else {
      SumUpdate(ts[..n], w, i, pc);
      assert ts[i := pc][..n] == ts[..n][i := pc];
    }
  }

  lemma {:induction false} SumAtLeast(ts: seq<PC>, w: PC -> nat, i: nat)
    requires i < |ts|
    ensures Sum(ts, w) >= w(ts[i])
  {
    if i < |ts| - 1 {
      SumAtLeast(ts[..|ts| - 1], w, i);
    }
  }

  lemma {:induction false} SumPositive(ts: seq<PC>, w: PC -> nat) returns (i: nat)
    requires Sum(ts, w) > 0
    ensures i < |ts| && w(ts[i]) > 0
  {
    if w(ts[|ts| - 1]) > 0 {
      i := |ts| - 1;
    } else {
      i := SumPositive(ts[..|ts| - 1], w);
    }
  }

  lemma {:induction false} SumOrdered(ts: seq<PC>, v: PC -> nat, w: PC -> nat)
    requires forall pc :: v(pc) <= w(pc)
    ensures Sum(ts, v) <= Sum(ts, w)
  {
    if ts != [] {
      SumOrdered(ts[..|ts| - 1], v, w);
    }
  }

  lemma {:induction false} SumOfUnborn(n: nat, w: PC -> nat)
    ensures Sum(seq(n, _ => Unborn), w) == n * w(Unborn)
  {
    if n > 0 {
      assert seq(n, _ => Unborn)[..n - 1] == seq(n - 1, _ => Unborn);
      SumOfUnborn(n - 1, w);
    }
  }

  /** 1 for a worker that has been counted in insmoding and not yet uncounted. */
  function InFlight(pc: PC): nat {
    if pc.ModCounted? || pc.ModUnlock? || pc.Forking? || pc.Waiting? || pc.PutWantMutex? || pc.PutTest? then 1 else 0
  }

  function InWait(pc: PC): nat {
    if pc.Waiting? then 1 else 0
  }

  // ----- The invariant -----

  predicate HasPassed(pc: PC) { pc.HdrPassed? }

  predicate Sleeps(pc: PC) { pc.HdrAsleep? }

  predicate AboutToSignal(pc: PC) { pc.PutSignal? }

  ghost predicate At(s: State, owner: Option<nat>, P: PC -> bool) {
    owner.Some? && owner.value < |s.threads| && P(s.threads[owner.value])
  }

  /** Ownership of the two mutexes agrees with where the workers stand. */
  ghost predicate LocksInv(s: State) {
    && (s.lock.Some? ==> s.lock.value < |s.threads|)
    && (s.mutex.Some? ==> s.mutex.value < |s.threads|)
    && (forall t :: 0 <= t < |s.threads| ==> (HoldsLock(s.threads[t]) <==> s.lock == Some(t)))
    && (forall t :: 0 <= t < |s.threads| ==> (HoldsMutex(s.threads[t]) <==> s.mutex == Some(t)))
  }

  /** The counter counts the workers between get_module and put_module, and as many workers
      are inside wait as there are children to wait for, whoever reaps whose child. */
  ghost predicate CountInv(s: State) {
    && s.insmoding == Sum(s.threads, InFlight)
    && |s.running| + |s.zombies| == Sum(s.threads, InWait)
    && s.running !! s.zombies
  }

  /** Whoever has passed the barrier test still sees the counter at zero. */
  ghost predicate PassedInv(s: State) {
    At(s, s.mutex, HasPassed) ==> s.insmoding == 0
  }

  /** No lost wake-up: a sleeper implies work in flight or a worker about to signal. */
  ghost predicate SleepInv(s: State) {
    At(s, s.lock, Sleeps) ==> s.insmoding > 0 || At(s, s.mutex, AboutToSignal)
  }

  ghost predicate IsModuleLine(lines: seq<Line>, k: nat) {
    k < |lines| && lines[k].Module?
  }

  ghost predicate Started(s: State, k: nat) {
    k in s.running || k in s.zombies || k in s.reaped
  }

  ghost predicate Carrier(s: State, t: nat, k: nat) {
    t < |s.threads| && Carries(s.threads[t], k)
  }

  /** A module line that has been read is carried by exactly one worker or has exactly one child. */
  ghost predicate LinesInv(lines: seq<Line>, s: State) {
    && s.pos <= |lines|
    && (s.running + s.zombies) !! s.reaped
    && (forall k: nat :: Started(s, k) ==> IsModuleLine(lines, k) && k < s.pos)
    && (forall t: nat, k: nat :: Carrier(s, t, k) ==> IsModuleLine(lines, k) && k < s.pos && !Started(s, k))
    && (forall t: nat, u: nat, k: nat :: Carrier(s, t, k) && Carrier(s, u, k) ==> t == u)
    && (forall k: nat :: k < s.pos && IsModuleLine(lines, k) && !Started(s, k) ==> exists t: nat :: Carrier(s, t, k))
  }

  /** cur_height counts the headers passed, and everything listed above the last one has been reaped. */
  ghost predicate BarrierInv(lines: seq<Line>, s: State) {
    && s.pos <= |lines|
    && (if At(s, s.lock, AtBarrier)
        then s.pos > 0 && lines[s.pos - 1].Header? && s.curHeight == Headers(lines[..s.pos - 1])
        else s.curHeight == Headers(lines[..s.pos]))
    && (forall k: nat :: k < s.pos && IsModuleLine(lines, k) && Headers(lines[..k]) < s.curHeight ==> k in s.reaped)
  }

  /** The module lines among the first n, in file order. */
  ghost function ModuleIndices(lines: seq<Line>, n: nat): seq<nat>
    requires n <= |lines|
  {
    if n == 0 then [] else ModuleIndices(lines, n - 1) + if lines[n - 1].Module? then [n - 1] else []
  }

  /** Main creates, then joins, in order; a worker ends only at the end of the file. */
  ghost predicate MainInv(lines: seq<Line>, s: State) {
    && s.pos <= |lines|
    && s.main <= 2 * |s.threads|
    && s.handed == ModuleIndices(lines, s.pos)
    && (forall t :: 0 <= t < |s.threads| ==> (s.threads[t].Unborn? <==> s.main <= t))
    && (forall t :: 0 <= t < s.main - |s.threads| ==> s.threads[t].Done?)
    && (forall t :: 0 <= t < |s.threads| && (s.threads[t].EofUnlock? || s.threads[t].Done?) ==> s.pos == |lines|)
  }

  ghost predicate Inv(lines: seq<Line>, s: State) {
    && LocksInv(s) && CountInv(s) && PassedInv(s) && SleepInv(s)
    && LinesInv(lines, s) && BarrierInv(lines, s) && MainInv(lines, s)
  }

  lemma InitInv(lines: seq<Line>, workers: nat)
    ensures Inv(lines, Init(workers))
  {
    SumOfUnborn(workers, InFlight);
    SumOfUnborn(workers, InWait);
    assert lines[..0] == [];
  }

  // ----- One worker moves from pc to pc' -----

  lemma LocksAfterMove(s: State, s': State, t: nat, pc: PC, pc': PC)
    requires LocksInv(s) && t < |s.threads| && pc == s.threads[t] && s'.threads == s.threads[t := pc']
    requires HoldsLock(pc') && !HoldsLock(pc) ==> s.lock.None?
    requires HoldsMutex(pc') && !HoldsMutex(pc) ==> s.mutex.None?
    requires s'.lock == if HoldsLock(pc') then Some(t) else if HoldsLock(pc) then None else s.lock
    requires s'.mutex == if HoldsMutex(pc') then Some(t) else if HoldsMutex(pc) then None else s.mutex
    ensures LocksInv(s')
  {
  }

  lemma CountAfterMove(s: State, s': State, t: nat, pc: PC, pc': PC)
    requires CountInv(s) && t < |s.threads| && pc == s.threads[t] && s'.threads == s.threads[t := pc']
    requires InFlight(pc) <= s.insmoding ==> s'.insmoding == s.insmoding - InFlight(pc) + InFlight(pc')
    requires |s'.running| + |s'.zombies| == |s.running| + |s.zombies| - InWait(pc) + InWait(pc')
    requires s'.running !! s'.zombies
    ensures CountInv(s')
  {
    SumUpdate(s.threads, InFlight, t, pc');
    SumUpdate(s.threads, InWait, t, pc');
    SumAtLeast(s.threads, InFlight, t);
  }

  /** The worker keeps what it carries, if anything, and no insmod starts. */
  lemma LinesAfterMove(lines: seq<Line>, s: State, s': State, t: nat, pc: PC, pc': PC)
    requires LinesInv(lines, s) && t < |s.threads| && pc == s.threads[t] && s'.threads == s.threads[t := pc']
    requires forall k: nat :: Carries(pc', k) <==> Carries(pc, k)
    requires forall k: nat :: Started(s', k) <==> Started(s, k)
    requires (s'.running + s'.zombies) !! s'.reaped
    requires s'.pos == s.pos || (s'.pos == s.pos + 1 <= |lines| && lines[s.pos].Header?)
    ensures LinesInv(lines, s')
  {
    assert forall u: nat, k: nat :: Carrier(s', u, k) <==> Carrier(s, u, k);
  }

  lemma LinesAfterTake(lines: seq<Line>, s: State, s': State, t: nat, pc: PC, pc': PC)
    requires LinesInv(lines, s) && t < |s.threads| && pc == s.threads[t] && s'.threads == s.threads[t := pc']
    requires IsModuleLine(lines, s.pos) && s'.pos == s.pos + 1
    requires pc.Reading? && pc' == ModWantMutex(s.pos)
    requires s'.running == s.running && s'.zombies == s.zombies && s'.reaped == s.reaped
    ensures LinesInv(lines, s')
  {
    assert forall u: nat, k: nat :: Carrier(s', u, k) <==> Carrier(s, u, k) || (u == t && k == s.pos);
    assert forall k: nat :: Started(s', k) <==> Started(s, k);
    forall k: nat | k < s'.pos && IsModuleLine(lines, k) && !Started(s', k) ensures exists u: nat :: Carrier(s', u, k) {
      if k < s.pos {
        var u: nat :| Carrier(s, u, k);
        assert Carrier(s', u, k);
      } else {
        assert Carrier(s', t, k);
      }
    }
  }

  lemma LinesAfterFork(lines: seq<Line>, s: State, s': State, t: nat, pc: PC, pc': PC)
    requires LinesInv(lines, s) && t < |s.threads| && pc == s.threads[t] && s'.threads == s.threads[t := pc']
    requires pc.Forking? && pc' == Waiting && s'.pos == s.pos
    requires s'.running == s.running + {pc.line} && s'.zombies == s.zombies && s'.reaped == s.reaped
    ensures LinesInv(lines, s')
  {
    assert Carrier(s, t, pc.line);
    assert forall u: nat, k: nat :: Carrier(s', u, k) <==> Carrier(s, u, k) && k != pc.line;
    assert forall k: nat :: Started(s', k) <==> Started(s, k) || k == pc.line;
    forall k: nat | k < s'.pos && IsModuleLine(lines, k) && !Started(s', k) ensures exists u: nat :: Carrier(s', u, k) {
      var u: nat :| Carrier(s, u, k);
      assert Carrier(s', u, k);
    }
  }

  lemma MainAfterMove(lines: seq<Line>, s: State, s': State, t: nat, pc: PC, pc': PC)
    requires MainInv(lines, s) && t < |s.threads| && pc == s.threads[t] && s'.threads == s.threads[t := pc']
    requires !pc.Unborn? && !pc'.Unborn? && !pc.Done? && s'.main == s.main
    requires s'.pos == s.pos || s'.pos == s.pos + 1 <= |lines|
    requires s'.handed == s.handed + if s'.pos != s.pos && lines[s.pos].Module? then [s.pos] else []
    requires pc'.EofUnlock? || pc'.Done? ==> s.pos == |lines| || pc.EofUnlock?
    ensures MainInv(lines, s')
  {
  }

  /** With the counter at zero and the reader lock held at the barrier, every line read so far has been reaped. */
  lemma QuietMeansReaped(lines: seq<Line>, s: State, t: nat, k: nat)
    requires LocksInv(s) && CountInv(s) && PassedInv(s) && LinesInv(lines, s)
    requires t < |s.threads| && s.threads[t].HdrPassed?
    requires k < s.pos && IsModuleLine(lines, k)
    ensures k in s.reaped
  {
    assert HoldsMutex(s.threads[t]) && HoldsLock(s.threads[t]);
    SumOrdered(s.threads, InWait, InFlight);
    assert s.running == {} && s.zombies == {};
    if !Started(s, k) {
      var u: nat :| Carrier(s, u, k);
      SumAtLeast(s.threads, InFlight, u);
    }
  }

  /** wait(NULL) never finds itself without a child. */
  lemma WaitHasChild(s: State, t: nat)
    requires CountInv(s) && t < |s.threads| && s.threads[t].Waiting?
    ensures s.running != {} || s.zombies != {}
  {
    SumAtLeast(s.threads, InWait, t);
  }

  // ----- A step of one worker on its own -----

  lemma RunKeepsLocks(lines: seq<Line>, s: State, t: nat, s': State, pc: PC, pc': PC)
    requires Enabled(lines, s, Run(t)) && s' == RunThread(lines, s, t)
    requires pc == s.threads[t] && pc' == s'.threads[t]
    requires LocksInv(s)
    ensures LocksInv(s')
    ensures s'.threads == s.threads[t := pc']
  {
    LocksAfterMove(s, s', t, pc, pc');
  }

  lemma RunMovesCount(lines: seq<Line>, s: State, t: nat, s': State, pc: PC, pc': PC)
    requires Enabled(lines, s, Run(t)) && s' == RunThread(lines, s, t)
    requires pc == s.threads[t] && pc' == s'.threads[t]
    ensures InFlight(pc) <= s.insmoding ==> s'.insmoding == s.insmoding - InFlight(pc) + InFlight(pc')
    ensures s'.zombies == s.zombies && s'.reaped == s.reaped
    ensures s'.running == (if pc.Forking? then s.running + {pc.line} else s.running)
    ensures InWait(pc) == 0 && InWait(pc') == (if pc.Forking? then 1 else 0)
  {
  }

  lemma RunKeepsCount(lines: seq<Line>, s: State, t: nat, s': State, pc: PC, pc': PC)
    requires Enabled(lines, s, Run(t)) && s' == RunThread(lines, s, t)
    requires pc == s.threads[t] && pc' == s'.threads[t] && s'.threads == s.threads[t := pc']
    requires CountInv(s) && LinesInv(lines, s)
    ensures CountInv(s')
  {
    RunMovesCount(lines, s, t, s', pc, pc');
    if pc.Forking? {
      assert Carrier(s, t, pc.line);
    }
    CountAfterMove(s, s', t, pc, pc');
  }

  lemma RunKeepsPassed(lines: seq<Line>, s: State, t: nat, s': State, pc: PC, pc': PC)
    requires Enabled(lines, s, Run(t)) && s' == RunThread(lines, s, t)
    requires pc == s.threads[t] && pc' == s'.threads[t]
    requires LocksInv(s) && PassedInv(s)
    ensures PassedInv(s')
  {
  }

  lemma RunKeepsSleep(lines: seq<Line>, s: State, t: nat, s': State, pc: PC, pc': PC)
    requires Enabled(lines, s, Run(t)) && s' == RunThread(lines, s, t)
    requires pc == s.threads[t] && pc' == s'.threads[t]
    requires LocksInv(s) && SleepInv(s)
    ensures SleepInv(s')
  {
  }

  lemma RunMovesLines(lines: seq<Line>, s: State, t: nat, s': State, pc: PC, pc': PC)
    requires Enabled(lines, s, Run(t)) && s' == RunThread(lines, s, t)
    requires pc == s.threads[t] && pc' == s'.threads[t]
    ensures s'.main == s.main && s'.zombies == s.zombies && s'.reaped == s.reaped
    ensures !pc.Unborn? && !pc'.Unborn? && !pc.Done?
    ensures pc'.EofUnlock? || pc'.Done? ==> s.pos >= |lines| || pc.EofUnlock?
    ensures if pc.Reading? && s.pos < |lines| then
              && s'.pos == s.pos + 1
              && (lines[s.pos].Module? ==> pc' == ModWantMutex(s.pos) && s'.handed == s.handed + [s.pos])
              && (lines[s.pos].Header? ==> pc' == HdrWantMutex && s'.handed == s.handed)
            else
              s'.pos == s.pos && s'.handed == s.handed
    ensures if pc.Forking? then pc' == Waiting && s'.running == s.running + {pc.line} else s'.running == s.running
    ensures pc.Forking? || (pc.Reading? && s.pos < |lines| && lines[s.pos].Module?) ||
            forall k: nat :: Carries(pc', k) <==> Carries(pc, k)
  {
  }

  lemma RunKeepsLines(lines: seq<Line>, s: State, t: nat, s': State, pc: PC, pc': PC)
    requires Enabled(lines, s, Run(t)) && s' == RunThread(lines, s, t)
    requires pc == s.threads[t] && pc' == s'.threads[t] && s'.threads == s.threads[t := pc']
    requires LinesInv(lines, s) && MainInv(lines, s)
    ensures LinesInv(lines, s') && MainInv(lines, s')
  {
    RunMovesLines(lines, s, t, s', pc, pc');
    MainAfterMove(lines, s, s', t, pc, pc');
    if pc.Forking? {
      LinesAfterFork(lines, s, s', t, pc, pc');
    } else if pc.Reading? && s.pos < |lines| && lines[s.pos].Module? {
      LinesAfterTake(lines, s, s', t, pc, pc');
    } else {
      LinesAfterMove(lines, s, s', t, pc, pc');
    }
  }

  lemma HeadersStep(lines: seq<Line>, n: nat)
    requires n < |lines|
    ensures Headers(lines[..n + 1]) == Headers(lines[..n]) + if lines[n].Header? then 1 else 0
  {
    assert lines[..n + 1][..n] == lines[..n];
  }

  /** Where the barrier stands before and after a step of worker t. */
  lemma RunMovesBarrier(lines: seq<Line>, s: State, t: nat, s': State, pc: PC, pc': PC)
    requires Enabled(lines, s, Run(t)) && s' == RunThread(lines, s, t)
    requires pc == s.threads[t] && pc' == s'.threads[t]
    requires HoldsLock(pc) <==> s.lock == Some(t)
    ensures s'.curHeight == s.curHeight + if pc.HdrPassed? then 1 else 0
    ensures At(s', s'.lock, AtBarrier) == if pc.HdrPassed? then false
                                          else if pc.Reading? && s.pos < |lines| && lines[s.pos].Header? then true
                                          else At(s, s.lock, AtBarrier)
    ensures pc.HdrPassed? ==> At(s, s.lock, AtBarrier)
    ensures pc.Reading? ==> !At(s, s.lock, AtBarrier)
  {
  }

  lemma RunKeepsBarrier(lines: seq<Line>, s: State, t: nat, s': State, pc: PC, pc': PC)
    requires Enabled(lines, s, Run(t)) && s' == RunThread(lines, s, t)
    requires pc == s.threads[t] && pc' == s'.threads[t]
    requires LocksInv(s) && CountInv(s) && PassedInv(s) && LinesInv(lines, s) && BarrierInv(lines, s)
    ensures BarrierInv(lines, s')
  {
    RunMovesBarrier(lines, s, t, s', pc, pc');
    RunMovesLines(lines, s, t, s', pc, pc');
    BarrierAfterMove(lines, s, t, s', pc);
  }

  lemma BarrierPassed(lines: seq<Line>, s: State, t: nat)
    requires LocksInv(s) && CountInv(s) && PassedInv(s) && LinesInv(lines, s)
    requires t < |s.threads| && s.threads[t].HdrPassed?
    ensures forall k: nat :: k < s.pos && IsModuleLine(lines, k) ==> k in s.reaped
  {
    forall k: nat | k < s.pos && IsModuleLine(lines, k) ensures k in s.reaped { QuietMeansReaped(lines, s, t, k); }
  }

  lemma HeightAfterPass(lines: seq<Line>, s: State, s': State)
    requires BarrierInv(lines, s) && At(s, s.lock, AtBarrier)
    requires forall k: nat :: k < s.pos && IsModuleLine(lines, k) ==> k in s.reaped
    requires s'.curHeight == s.curHeight + 1 && s'.pos == s.pos && s'.reaped == s.reaped && !At(s', s'.lock, AtBarrier)
    ensures BarrierInv(lines, s')
  {
    HeadersStep(lines, s.pos - 1);
  }

  lemma HeightAfterRead(lines: seq<Line>, s: State, s': State)
    requires BarrierInv(lines, s) && !At(s, s.lock, AtBarrier) && s.pos < |lines|
    requires s'.curHeight == s.curHeight && s'.pos == s.pos + 1 && s'.reaped == s.reaped
    requires At(s', s'.lock, AtBarrier) == lines[s.pos].Header?
    ensures BarrierInv(lines, s')
  {
    HeadersStep(lines, s.pos);
  }

  lemma HeightKept(lines: seq<Line>, s: State, s': State)
    requires BarrierInv(lines, s) && At(s', s'.lock, AtBarrier) == At(s, s.lock, AtBarrier)
    requires s'.curHeight == s.curHeight && s'.pos == s.pos && s'.reaped == s.reaped
    ensures BarrierInv(lines, s')
  {
  }

  lemma BarrierAfterMove(lines: seq<Line>, s: State, t: nat, s': State, pc: PC)
    requires LocksInv(s) && CountInv(s) && PassedInv(s) && LinesInv(lines, s) && BarrierInv(lines, s)
    requires t < |s.threads| && pc == s.threads[t]
    requires s'.curHeight == s.curHeight + if pc.HdrPassed? then 1 else 0
    requires s'.pos == s.pos + if pc.Reading? && s.pos < |lines| then 1 else 0
    requires s'.reaped == s.reaped
    requires At(s', s'.lock, AtBarrier) == if pc.HdrPassed? then false
                                           else if pc.Reading? && s.pos < |lines| && lines[s.pos].Header? then true
                                           else At(s, s.lock, AtBarrier)
    requires pc.HdrPassed? ==> At(s, s.lock, AtBarrier)
    requires pc.Reading? ==> !At(s, s.lock, AtBarrier)
    ensures BarrierInv(lines, s')
  {
    if pc.HdrPassed? {
      BarrierPassed(lines, s, t);
      HeightAfterPass(lines, s, s');
    } else if pc.Reading? && s.pos < |lines| {
      HeightAfterRead(lines, s, s');
    } else {
      HeightKept(lines, s, s');
    }
  }

  lemma RunPreserves(lines: seq<Line>, s: State, t: nat)
    requires Inv(lines, s) && Enabled(lines, s, Run(t))
    ensures Inv(lines, RunThread(lines, s, t))
  {
    var s' := RunThread(lines, s, t);
    RunKeepsLocks(lines, s, t, s', s.threads[t], s'.threads[t]);
    RunKeepsCounters(lines, s, t, s', s.threads[t], s'.threads[t]);
    RunKeepsProgress(lines, s, t, s', s.threads[t], s'.threads[t]);
  }

  lemma RunKeepsCounters(lines: seq<Line>, s: State, t: nat, s': State, pc: PC, pc': PC)
    requires Enabled(lines, s, Run(t)) && s' == RunThread(lines, s, t)
    requires pc == s.threads[t] && pc' == s'.threads[t] && s'.threads == s.threads[t := pc']
    requires LocksInv(s) && CountInv(s) && PassedInv(s) && SleepInv(s) && LinesInv(lines, s)
    ensures CountInv(s') && PassedInv(s') && SleepInv(s')
  {
    RunKeepsCount(lines, s, t, s', pc, pc');
    RunKeepsPassed(lines, s, t, s', pc, pc');
    RunKeepsSleep(lines, s, t, s', pc, pc');
  }

  lemma RunKeepsProgress(lines: seq<Line>, s: State, t: nat, s': State, pc: PC, pc': PC)
    requires Enabled(lines, s, Run(t)) && s' == RunThread(lines, s, t)
    requires pc == s.threads[t] && pc' == s'.threads[t] && s'.threads == s.threads[t := pc']
    requires LocksInv(s) && CountInv(s) && PassedInv(s)
    requires LinesInv(lines, s) && BarrierInv(lines, s) && MainInv(lines, s)
    ensures LinesInv(lines, s') && BarrierInv(lines, s') && MainInv(lines, s')
  {
    RunKeepsLines(lines, s, t, s', pc, pc');
    RunKeepsBarrier(lines, s, t, s', pc, pc');
  }

  // ----- The other actions -----

  lemma MainKeepsMain(lines: seq<Line>, s: State)
    requires MainInv(lines, s) && Enabled(lines, s, MainStep)
    ensures MainInv(lines, MainMoves(s))
  {
  }

  lemma MainPreserves(lines: seq<Line>, s: State)
    requires Inv(lines, s) && Enabled(lines, s, MainStep) && s.main < |s.threads|
    ensures Inv(lines, MainMoves(s))
  {
    var s' := MainMoves(s);
    LocksAfterMove(s, s', s.main, Unborn, WantLock);
    CountAfterMove(s, s', s.main, Unborn, WantLock);
    LinesAfterMove(lines, s, s', s.main, Unborn, WantLock);
    BarrierFrame(lines, s, s', s.main);
    MainKeepsMain(lines, s);
  }

  /** The barrier when a worker that does not hold the reader lock moves. */
  lemma BarrierFrame(lines: seq<Line>, s: State, s': State, t: nat)
    requires LocksInv(s) && PassedInv(s) && SleepInv(s) && BarrierInv(lines, s)
    requires t < |s.threads| && !HoldsLock(s.threads[t]) && !HoldsMutex(s.threads[t])
    requires |s'.threads| == |s.threads| && forall u :: 0 <= u < |s.threads| && u != t ==> s'.threads[u] == s.threads[u]
    requires s'.lock == s.lock && s'.mutex == s.mutex && s'.insmoding == s.insmoding
    requires s'.pos == s.pos && s'.curHeight == s.curHeight && s.reaped <= s'.reaped
    ensures PassedInv(s') && SleepInv(s') && BarrierInv(lines, s')
  {
  }

  lemma JoinPreserves(lines: seq<Line>, s: State)
    requires Inv(lines, s) && Enabled(lines, s, MainStep) && s.main >= |s.threads|
    ensures Inv(lines, MainMoves(s))
  {
    MainKeepsMain(lines, s);
    LinesFrame(lines, s, MainMoves(s));
  }

  /** Only the split of the started lines into running, exited and reaped changes. */
  lemma LinesFrame(lines: seq<Line>, s: State, s': State)
    requires LinesInv(lines, s)
    requires s'.threads == s.threads && s'.pos == s.pos
    requires s'.running + s'.zombies == s.running + s.zombies && s'.reaped == s.reaped
    ensures LinesInv(lines, s')
  {
    assert forall k: nat :: k in s'.running + s'.zombies <==> k in s.running + s.zombies;
    assert forall k: nat :: Started(s', k) <==> Started(s, k);
    assert forall u: nat, k: nat :: Carrier(s', u, k) <==> Carrier(s, u, k);
  }

  lemma ReapPreserves(lines: seq<Line>, s: State, t: nat, k: nat)
    requires Inv(lines, s) && Enabled(lines, s, Reap(t, k))
    ensures Inv(lines, ReapChild(s, t, k))
  {
    var s' := ReapChild(s, t, k);
    LocksAfterMove(s, s', t, Waiting, PutWantMutex);
    ReapKeepsLines(lines, s, t, k);
    ReapKeepsRest(lines, s, t, k);
  }

  lemma ReapKeepsRest(lines: seq<Line>, s: State, t: nat, k: nat)
    requires LocksInv(s) && PassedInv(s) && SleepInv(s) && BarrierInv(lines, s) && MainInv(lines, s)
    requires t < |s.threads| && s.threads[t].Waiting?
    ensures var s' := ReapChild(s, t, k);
            PassedInv(s') && SleepInv(s') && BarrierInv(lines, s') && MainInv(lines, s')
  {
    BarrierFrame(lines, s, ReapChild(s, t, k), t);
    MainAfterMove(lines, s, ReapChild(s, t, k), t, Waiting, PutWantMutex);
  }

  lemma ReapKeepsLines(lines: seq<Line>, s: State, t: nat, k: nat)
    requires CountInv(s) && LinesInv(lines, s) && Enabled(lines, s, Reap(t, k))
    ensures CountInv(ReapChild(s, t, k)) && LinesInv(lines, ReapChild(s, t, k))
  {
    var s' := ReapChild(s, t, k);
    CountAfterMove(s, s', t, Waiting, PutWantMutex);
    LinesAfterMove(lines, s, s', t, Waiting, PutWantMutex);
  }

  lemma ExitPreserves(lines: seq<Line>, s: State, k: nat)
    requires Inv(lines, s) && Enabled(lines, s, Exit(k))
    ensures Inv(lines, ChildExits(s, k))
  {
    LinesFrame(lines, s, ChildExits(s, k));
    ExitKeepsRest(lines, s, k);
  }

  lemma ExitKeepsRest(lines: seq<Line>, s: State, k: nat)
    requires CountInv(s) && LocksInv(s) && PassedInv(s) && SleepInv(s) && BarrierInv(lines, s) && MainInv(lines, s)
    requires k in s.running
    ensures var s' := ChildExits(s, k);
            && CountInv(s') && LocksInv(s') && PassedInv(s') && SleepInv(s') && BarrierInv(lines, s')
               && MainInv(lines, s')
  {
  }

  lemma SpuriousPreserves(lines: seq<Line>, s: State, t: nat)
    requires Inv(lines, s) && Enabled(lines, s, Spurious(t))
    ensures Inv(lines, Goto(s, t, HdrWoken))
  {
    var s' := Goto(s, t, HdrWoken);
    LocksAfterMove(s, s', t, HdrAsleep, HdrWoken);
    CountAfterMove(s, s', t, HdrAsleep, HdrWoken);
    LinesAfterMove(lines, s, s', t, HdrAsleep, HdrWoken);
    MainAfterMove(lines, s, s', t, HdrAsleep, HdrWoken);
  }

  /** A signal is the same as the sleeper waking first and the signalling worker moving on then. */
  lemma SignalIsWakeThenRun(lines: seq<Line>, s: State, t: nat, u: nat)
    requires LocksInv(s) && Enabled(lines, s, Signal(t, u))
    ensures Enabled(lines, Goto(s, u, HdrWoken), Run(t))
    ensures RunThread(lines, Goto(s, u, HdrWoken), t) == WakeSleeper(s, t, u)
  {
    OneSleeper(s, u);
  }

  lemma SignalPreserves(lines: seq<Line>, s: State, t: nat, u: nat)
    requires Inv(lines, s) && Enabled(lines, s, Signal(t, u))
    ensures Inv(lines, WakeSleeper(s, t, u))
  {
    SpuriousPreserves(lines, s, u);
    SignalIsWakeThenRun(lines, s, t, u);
    RunPreserves(lines, Goto(s, u, HdrWoken), t);
  }

  /** At most one worker waits on the condition variable. */
  lemma OneSleeper(s: State, u: nat)
    requires LocksInv(s) && Asleep(s, u)
    ensures forall t :: Asleep(s, t) ==> t == u
    ensures NobodyAsleep(Goto(s, u, HdrWoken))
  {
    assert HoldsLock(s.threads[u]);
  }

  /** Every action keeps the invariant, and wait(NULL) is never called without a child. */
  lemma StepPreserves(lines: seq<Line>, s: State, a: Action)
    requires Inv(lines, s) && Enabled(lines, s, a)
    ensures Inv(lines, Apply(lines, s, a))
    ensures !a.NoChild?
  {
    match a
    case MainStep => if s.main < |s.threads| { MainPreserves(lines, s); } else { JoinPreserves(lines, s); }
    case Run(t) => RunPreserves(lines, s, t);
    case Reap(t, k) => ReapPreserves(lines, s, t, k);
    case NoChild(t) => WaitHasChild(s, t);
    case Signal(t, u) => SignalPreserves(lines, s, t, u);
    case Exit(k) => ExitPreserves(lines, s, k);
    case Spurious(t) => SpuriousPreserves(lines, s, t);
  }

  // ----- Progress -----

  /** A worker not at rest in wait, at the barrier or at the reader lock can move when `mutex` is free. */
  lemma CanRun(lines: seq<Line>, s: State, t: nat)
    requires Inv(lines, s) && t < |s.threads|
    requires var pc := s.threads[t];
             !pc.Unborn? && !pc.HdrAsleep? && !pc.Waiting? && !pc.Done? && !pc.PutSignal? && !pc.WantLock?
    requires s.mutex.None? || HoldsMutex(s.threads[t])
    ensures Enabled(lines, s, Run(t))
  {
  }

  lemma MutexOwnerMoves(lines: seq<Line>, s: State) returns (a: Action)
    requires Inv(lines, s) && s.mutex.Some?
    ensures Enabled(lines, s, a) && !a.Spurious?
  {
    var t := s.mutex.value;
    a := Run(t);
    if s.threads[t].PutSignal? {
      if !Enabled(lines, s, Run(t)) {
        var u :| 0 <= u < |s.threads| && s.threads[u].HdrAsleep?;
        a := Signal(t, u);
      }
    } else {
      assert HoldsMutex(s.threads[t]);
      CanRun(lines, s, t);
    }
  }

  lemma WaiterMoves(lines: seq<Line>, s: State) returns (a: Action)
    requires Inv(lines, s) && Sum(s.threads, InWait) > 0
    ensures Enabled(lines, s, a) && !a.Spurious?
  {
    var t := SumPositive(s.threads, InWait);
    if s.running != {} {
      var k :| k in s.running;
      a := Exit(k);
    } else {
      var k :| k in s.zombies;
      a := Reap(t, k);
    }
  }

  /** A sleeper is never left alone: whoever keeps the counter above zero can move. */
  lemma CounterFalls(lines: seq<Line>, s: State) returns (a: Action)
    requires Inv(lines, s) && s.mutex.None? && Sum(s.threads, InWait) == 0
    requires At(s, s.lock, Sleeps)
    ensures Enabled(lines, s, a) && !a.Spurious?
  {
    var t := SumPositive(s.threads, InFlight);
    SumAtLeast(s.threads, InWait, t);
    assert !HoldsMutex(s.threads[t]);
    assert s.lock == Some(t) <==> HoldsLock(s.threads[t]);
    CanRun(lines, s, t);
    a := Run(t);
  }

  lemma LockOwnerMoves(lines: seq<Line>, s: State) returns (a: Action)
    requires Inv(lines, s) && s.mutex.None? && Sum(s.threads, InWait) == 0
    requires s.lock.Some?
    ensures Enabled(lines, s, a) && !a.Spurious?
  {
    var t := s.lock.value;
    assert HoldsLock(s.threads[t]);
    if s.threads[t].HdrAsleep? {
      a := CounterFalls(lines, s);
    } else {
      CanRun(lines, s, t);
      a := Run(t);
    }
  }

  /** No deadlock: until main has joined everybody, some action other than a spurious wake-up is enabled. */
  lemma NoDeadlock(lines: seq<Line>, s: State) returns (a: Action)
    requires Inv(lines, s) && s.main < 2 * |s.threads|
    ensures Enabled(lines, s, a) && !a.Spurious?
  {
    if s.main < |s.threads| || s.threads[s.main - |s.threads|].Done? {
      a := MainStep;
    } else if s.mutex.Some? {
      a := MutexOwnerMoves(lines, s);
    } else if Sum(s.threads, InWait) > 0 {
      a := WaiterMoves(lines, s);
    } else if s.lock.Some? {
      a := LockOwnerMoves(lines, s);
    } else {
      var t := s.main - |s.threads|;
      SumAtLeast(s.threads, InWait, t);
      assert !HoldsMutex(s.threads[t]) && !HoldsLock(s.threads[t]);
      a := Run(t);
    }
  }

  /** How much a worker may still do before it reads the next line. */
  function Weight(pc: PC): nat {
    match pc
    case Done => 0
    case EofUnlock => 1
    case Reading => 2
    case WantLock => 3
    case HdrPassed => 3
    case HdrAsleep => 4
    case PutUnlock => 4
    case Unborn => 4
    case HdrTest => 5
    case HdrWantMutex => 6
    case HdrWoken => 6
    case PutSignal => 7
    case PutTest => 8
    case PutWantMutex => 9
    case Waiting => 10
    case Forking(_) => 13
    case ModUnlock(_) => 14
    case ModCounted(_) => 15
    case ModCounting(_) => 16
    case ModWantMutex(_) => 17
  }

  ghost function Measure(lines: seq<Line>, s: State): int {
    16 * (|lines| - s.pos) + Sum(s.threads, Weight) + 2 * |s.running| + |s.zombies| + (2 * |s.threads| - s.main)
  }

  lemma RunMovesWeight(lines: seq<Line>, s: State, t: nat, s': State, pc: PC, pc': PC)
    requires Enabled(lines, s, Run(t)) && s' == RunThread(lines, s, t)
    requires pc == s.threads[t] && pc' == s'.threads[t]
    ensures Weight(pc') < Weight(pc) + 16 * (s'.pos - s.pos) - if pc.Forking? then 2 else 0
  {
  }

  lemma RunLowersMeasure(lines: seq<Line>, s: State, t: nat)
    requires Inv(lines, s) && Enabled(lines, s, Run(t))
    ensures Measure(lines, RunThread(lines, s, t)) < Measure(lines, s)
  {
    var s' := RunThread(lines, s, t);
    RunKeepsLocks(lines, s, t, s', s.threads[t], s'.threads[t]);
    MoveLowersMeasure(lines, s, t, s', s.threads[t], s'.threads[t]);
  }

  lemma MoveLowersMeasure(lines: seq<Line>, s: State, t: nat, s': State, pc: PC, pc': PC)
    requires Enabled(lines, s, Run(t)) && s' == RunThread(lines, s, t)
    requires pc == s.threads[t] && pc' == s'.threads[t] && s'.threads == s.threads[t := pc']
    ensures Measure(lines, s') < Measure(lines, s)
  {
    RunMovesWeight(lines, s, t, s', pc, pc');
    RunMovesLines(lines, s, t, s', pc, pc');
    RunMovesCount(lines, s, t, s', pc, pc');
    SumUpdate(s.threads, Weight, t, pc');
  }

  lemma SignalLowersMeasure(lines: seq<Line>, s: State, t: nat, u: nat)
    requires Enabled(lines, s, Signal(t, u))
    ensures Measure(lines, WakeSleeper(s, t, u)) < Measure(lines, s)
  {
    SumUpdate(s.threads, Weight, t, PutUnlock);
    SumUpdate(s.threads[t := PutUnlock], Weight, u, HdrWoken);
  }

  lemma MainLowersMeasure(lines: seq<Line>, s: State)
    requires s.main < |s.threads| ==> s.threads[s.main].Unborn?
    ensures Measure(lines, MainMoves(s)) < Measure(lines, s)
  {
    if s.main < |s.threads| { SumUpdate(s.threads, Weight, s.main, WantLock); }
  }

  lemma ExitLowersMeasure(lines: seq<Line>, s: State, k: nat)
    requires k in s.running && k !in s.zombies
    ensures Measure(lines, ChildExits(s, k)) < Measure(lines, s)
  {
    assert |s.running - {k}| == |s.running| - 1 && |s.zombies + {k}| == |s.zombies| + 1;
  }

  lemma ReapLowersMeasure(lines: seq<Line>, s: State, t: nat, k: nat)
    requires t < |s.threads| && s.threads[t].Waiting? && k in s.zombies
    ensures Measure(lines, ReapChild(s, t, k)) < Measure(lines, s)
  {
    SumUpdate(s.threads, Weight, t, PutWantMutex);
    assert |s.zombies - {k}| == |s.zombies| - 1;
  }

  /** Every action but a spurious wake-up lowers the measure; a spurious wake-up raises it by 2. */
  lemma StepMeasure(lines: seq<Line>, s: State, a: Action)
    requires Inv(lines, s) && Enabled(lines, s, a)
    ensures a.Spurious? ==> Measure(lines, Apply(lines, s, a)) == Measure(lines, s) + 2
    ensures !a.Spurious? ==> Measure(lines, Apply(lines, s, a)) < Measure(lines, s)
  {
    match a
    case MainStep => MainLowersMeasure(lines, s);
    case Run(t) => RunLowersMeasure(lines, s, t);
    case Reap(t, k) => ReapLowersMeasure(lines, s, t, k);
    case NoChild(t) => WaitHasChild(s, t);
    case Signal(t, u) => SignalLowersMeasure(lines, s, t, u);
    case Exit(k) => ExitLowersMeasure(lines, s, k);
    case Spurious(t) => SpuriousRaisesMeasure(lines, s, t);
  }

  lemma SpuriousRaisesMeasure(lines: seq<Line>, s: State, t: nat)
    requires Asleep(s, t)
    ensures Measure(lines, Goto(s, t, HdrWoken)) == Measure(lines, s) + 2
  {
    SumUpdate(s.threads, Weight, t, HdrWoken);
  }

  // ----- Whole runs -----

  /** tr[0] is the start, and each state follows from the one before by the action beside it. */
  ghost predicate IsRun(lines: seq<Line>, workers: nat, tr: seq<State>, acts: seq<Action>) {
    && |tr| == |acts| + 1
    && tr[0] == Init(workers)
    && forall i :: 0 <= i < |acts| ==> Enabled(lines, tr[i], acts[i]) && tr[i + 1] == Apply(lines, tr[i], acts[i])
  }

  ghost function SpuriousWakeups(acts: seq<Action>): nat {
    if acts == [] then 0 else SpuriousWakeups(acts[..|acts| - 1]) + if acts[|acts| - 1].Spurious? then 1 else 0
  }

  /** The invariant holds in every state of every run. */
  lemma {:induction false} RunKeepsInv(lines: seq<Line>, workers: nat, tr: seq<State>, acts: seq<Action>, i: nat)
    requires IsRun(lines, workers, tr, acts) && i < |tr|
    ensures Inv(lines, tr[i]) && |tr[i].threads| == workers
  {
    if i == 0 {
      InitInv(lines, workers);
    } else {
      RunKeepsInv(lines, workers, tr, acts, i - 1);
      StepPreserves(lines, tr[i - 1], acts[i - 1]);
      StepKeepsWorkers(lines, tr[i - 1], acts[i - 1]);
    }
  }

  lemma StepKeepsWorkers(lines: seq<Line>, s: State, a: Action)
    requires Enabled(lines, s, a)
    ensures |Apply(lines, s, a).threads| == |s.threads|
  {
  }

  /** A run is no longer than a bound fixed by the file and the number of workers, spurious wake-ups apart. */
  lemma {:induction false} RunIsBounded(lines: seq<Line>, workers: nat, tr: seq<State>, acts: seq<Action>)
    requires IsRun(lines, workers, tr, acts)
    ensures |acts| + Measure(lines, tr[|acts|]) <= 16 * |lines| + 6 * workers + 3 * SpuriousWakeups(acts)
    ensures Measure(lines, tr[|acts|]) >= 0
    decreases |acts|
  {
    var n := |acts|;
    RunKeepsInv(lines, workers, tr, acts, n);
    if n == 0 {
      SumOfUnborn(workers, Weight);
    } else {
      assert IsRun(lines, workers, tr[..n], acts[..n - 1]);
      RunIsBounded(lines, workers, tr[..n], acts[..n - 1]);
      RunKeepsInv(lines, workers, tr, acts, n - 1);
      StepMeasure(lines, tr[n - 1], acts[n - 1]);
    }
  }

  lemma {:induction false} HeadersGrow(lines: seq<Line>, i: nat, j: nat)
    requires i <= j <= |lines|
    ensures Headers(lines[..i]) <= Headers(lines[..j])
  {
    if i < j {
      HeadersGrow(lines, i, j - 1);
      HeadersStep(lines, j - 1);
    }
  }

  /** cur_height has reached the level of every line that has been read. */
  lemma ReadLinesAreCurrent(lines: seq<Line>, s: State, k: nat)
    requires k < s.pos <= |lines| && lines[k].Module? && BarrierInv(lines, s)
    ensures Headers(lines[..k]) <= s.curHeight
  {
    if At(s, s.lock, AtBarrier) {
      HeadersGrow(lines, k, s.pos - 1);
    } else {
      HeadersGrow(lines, k, s.pos);
    }
  }

  /** When a worker is about to start insmod for line k, every insmod of an earlier level has exited and been reaped. */
  lemma EarlierLevelsAreReaped(lines: seq<Line>, s: State, t: nat, k: nat, j: nat)
    requires k < |lines| && j < |lines| && lines[j].Module?
    requires LinesInv(lines, s) && BarrierInv(lines, s)
    requires t < |s.threads| && s.threads[t] == Forking(k)
    requires Headers(lines[..j]) < Headers(lines[..k])
    ensures j in s.reaped
  {
    assert Carrier(s, t, k);
    if j >= k {
      HeadersGrow(lines, k, j);
    }
    ReadLinesAreCurrent(lines, s, k);
    assert IsModuleLine(lines, j);
  }

  lemma {:induction false} SumOfDone(ts: seq<PC>, w: PC -> nat)
    requires forall t :: 0 <= t < |ts| ==> ts[t].Done?
    requires w(Done) == 0
    ensures Sum(ts, w) == 0
  {
    if ts != [] {
      SumOfDone(ts[..|ts| - 1], w);
    }
  }

  /** A state in which nothing but a spurious wake-up can happen is complete: all threads joined, the
      file read to its end, every module line handed out once in file order, and every child reaped. */
  lemma StuckMeansComplete(lines: seq<Line>, s: State)
    requires Inv(lines, s) && |s.threads| >= 1
    requires forall a :: Enabled(lines, s, a) ==> a.Spurious?
    ensures s.main == 2 * |s.threads| && s.pos == |lines|
    ensures s.handed == ModuleIndices(lines, |lines|)
    ensures s.insmoding == 0 && s.running == {} && s.zombies == {}
    ensures forall k: nat :: IsModuleLine(lines, k) <==> k in s.reaped
    ensures s.curHeight == Headers(lines)
  {
    if s.main < 2 * |s.threads| {
      var a := NoDeadlock(lines, s);
    }
    assert s.threads[0].Done?;
    SumOfDone(s.threads, InFlight);
    SumOfDone(s.threads, InWait);
    assert forall t: nat, k: nat :: !Carrier(s, t, k);
    assert forall k: nat :: k in s.reaped <==> Started(s, k);
    assert lines[..|lines|] == lines;
  }

  /** The handed-out lines are exactly the module lines, each once, in increasing order. */
  lemma {:induction false} ModuleIndicesExact(lines: seq<Line>, n: nat)
    requires n <= |lines|
    ensures forall k: nat :: k in ModuleIndices(lines, n) <==> k < n && lines[k].Module?
    ensures forall i, j :: 0 <= i < j < |ModuleIndices(lines, n)| ==>
              ModuleIndices(lines, n)[i] < ModuleIndices(lines, n)[j]
  {
    if n > 0 {
      ModuleIndicesExact(lines, n - 1);
      var earlier := ModuleIndices(lines, n - 1);
      assert forall i :: 0 <= i < |earlier| ==> earlier[i] in earlier;
    }
  }
}

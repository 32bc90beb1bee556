// Runs of the parallel loader, built step by step: with any number of workers from two on, one can be held up just
// before its vfork while another goes on reading.
module LoaderRuns {
  import opened Wrappers
  import opened LevelledFile
  import opened ParallelLoader

  /** Some run of w workers over the file ends in s. */
  ghost predicate Reached(lines: seq<Line>, w: nat, s: State) {
    exists tr, acts :: IsRun(lines, w, tr, acts) && tr[|acts|] == s
  }

  lemma StartIsReached(lines: seq<Line>, w: nat)
    ensures Reached(lines, w, Init(w))
  {
    assert IsRun(lines, w, [Init(w)], []);
  }

  lemma Extended(lines: seq<Line>, w: nat, tr: seq<State>, acts: seq<Action>, a: Action)
    requires IsRun(lines, w, tr, acts) && Enabled(lines, tr[|acts|], a)
    ensures IsRun(lines, w, tr + [Apply(lines, tr[|acts|], a)], acts + [a])
  {
  }

  lemma Step(lines: seq<Line>, w: nat, s: State, a: Action) returns (s': State)
    requires Reached(lines, w, s) && Enabled(lines, s, a)
    ensures s' == Apply(lines, s, a) && Reached(lines, w, s')
  {
    var tr, acts :| IsRun(lines, w, tr, acts) && tr[|acts|] == s;
    s' := Apply(lines, s, a);
    Extended(lines, w, tr, acts, a);
    assert (tr + [s'])[|acts + [a]|] == s';
  }

  /** The other of the first two workers. */
  function Other(t: nat): nat { if t == 0 then 1 else 0 }

  /** The first two workers exist and no third one does yet; the other one is at rest at pc, no child is left, and only
      lines before n have been reaped. */
  ghost predicate Quiet(s: State, t: nat, pc: PC, n: nat) {
    && t < 2 <= |s.threads| && s.main == 2 && (forall u :: 2 <= u < |s.threads| ==> s.threads[u] == Unborn)
    && s.threads[Other(t)] == pc && (pc.WantLock? || pc.Forking?)
    && s.mutex == None && s.running == {} && s.zombies == {}
    && (forall k :: k in s.reaped ==> k < n && !(pc.Forking? && k == pc.line))
  }

  /** Worker t holds the reader lock and is about to read line p. */
  ghost predicate AboutToRead(s: State, t: nat, pc: PC, p: nat) {
    && Quiet(s, t, pc, p) && s.threads[t] == Reading && s.lock == Some(t) && s.pos == p
    && s.insmoding == (if pc.Forking? then 1 else 0) && (pc.Forking? ==> pc.line < p)
  }

  /** Worker t is about to start insmod for line p, which it has read; the lock is free. */
  ghost predicate AboutToFork(s: State, t: nat, pc: PC, p: nat) {
    && Quiet(s, t, pc, p) && s.threads[t] == Forking(p) && s.lock == None && s.pos == p + 1
    && s.insmoding == (if pc.Forking? then 2 else 1) && (pc.Forking? ==> pc.line < p)
  }

  lemma Begin(lines: seq<Line>, w: nat) returns (s: State)
    requires w >= 2
    ensures Reached(lines, w, s) && AboutToRead(s, 0, WantLock, 0)
  {
    StartIsReached(lines, w);
    s := Step(lines, w, Init(w), MainStep);
    s := Step(lines, w, s, MainStep);
    s := Step(lines, w, s, Run(0));
  }

  lemma ReadHeader(lines: seq<Line>, w: nat, s0: State, t: nat, p: nat) returns (s: State)
    requires Reached(lines, w, s0) && AboutToRead(s0, t, WantLock, p) && p < |lines| && lines[p].Header?
    ensures Reached(lines, w, s) && AboutToRead(s, t, WantLock, p + 1)
  {
    s := TakeHeader(lines, w, s0, t, p);
    s := Step(lines, w, s, Run(t));
    s := Step(lines, w, s, Run(t));
  }

  lemma TakeHeader(lines: seq<Line>, w: nat, s0: State, t: nat, p: nat) returns (s: State)
    requires Reached(lines, w, s0) && AboutToRead(s0, t, WantLock, p) && p < |lines| && lines[p].Header?
    ensures Reached(lines, w, s) && s == s0.(threads := s0.threads[t := HdrTest], pos := p + 1, mutex := Some(t))
  {
    s := Step(lines, w, s0, Run(t));
    s := Step(lines, w, s, Run(t));
  }

  lemma ReadModule(lines: seq<Line>, w: nat, s0: State, t: nat, pc: PC, p: nat) returns (s: State)
    requires Reached(lines, w, s0) && AboutToRead(s0, t, pc, p) && p < |lines| && lines[p].Module?
    ensures Reached(lines, w, s) && AboutToFork(s, t, pc, p)
  {
    s := TakeLine(lines, w, s0, t, pc, p);
    s := CountUp(lines, w, s, t, p);
    s := Step(lines, w, s, Run(t));
  }

  lemma CountUp(lines: seq<Line>, w: nat, s0: State, t: nat, p: nat) returns (s: State)
    requires Reached(lines, w, s0) && t < |s0.threads| && s0.threads[t] == ModCounting(p)
    ensures Reached(lines, w, s)
    ensures s == s0.(threads := s0.threads[t := ModUnlock(p)], mutex := None, insmoding := s0.insmoding + 1)
  {
    s := Step(lines, w, s0, Run(t));
    s := Step(lines, w, s, Run(t));
  }

  /** The line is read and `mutex` locked. */
  lemma TakeLine(lines: seq<Line>, w: nat, s0: State, t: nat, pc: PC, p: nat) returns (s: State)
    requires Reached(lines, w, s0) && AboutToRead(s0, t, pc, p) && p < |lines| && lines[p].Module?
    ensures Reached(lines, w, s)
    ensures s == s0.(threads := s0.threads[t := ModCounting(p)], pos := p + 1, mutex := Some(t),
                     handed := s0.handed + [p])
  {
    s := Step(lines, w, s0, Run(t));
    s := Step(lines, w, s, Run(t));
  }

  /** vfork, the child's exit, wait(NULL). */
  lemma Insert(lines: seq<Line>, w: nat, s0: State, t: nat, pc: PC, p: nat) returns (s: State)
    requires Reached(lines, w, s0) && AboutToFork(s0, t, pc, p)
    ensures Reached(lines, w, s) && s == s0.(threads := s0.threads[t := PutWantMutex], reaped := s0.reaped + {p})
  {
    s := Step(lines, w, s0, Run(t));
    s := Step(lines, w, s, Exit(p));
    s := Step(lines, w, s, Reap(t, p));
  }

  /** put_module and back to the reader. */
  lemma Put(lines: seq<Line>, w: nat, s0: State, t: nat, pc: PC, p: nat) returns (s: State)
    requires Reached(lines, w, s0) && Quiet(s0, t, pc, p + 1) && s0.threads[t] == PutWantMutex && s0.lock == None
              && s0.pos == p + 1
    requires s0.insmoding == (if pc.Forking? then 2 else 1) && (pc.Forking? ==> pc.line < p)
    ensures Reached(lines, w, s) && AboutToRead(s, t, pc, p + 1)
  {
    s := CountDown(lines, w, s0, t, pc, p);
    s := Release(lines, w, s, t);
    s := Step(lines, w, s, Run(t));
  }

  /** Nobody is asleep, so a signal wakes nobody. */
  lemma Release(lines: seq<Line>, w: nat, s0: State, t: nat) returns (s: State)
    requires Reached(lines, w, s0) && t < |s0.threads| && s0.threads[t] == PutSignal && NobodyAsleep(s0)
    ensures Reached(lines, w, s) && s == s0.(threads := s0.threads[t := WantLock], mutex := None)
  {
    s := Step(lines, w, s0, Run(t));
    s := Step(lines, w, s, Run(t));
  }

  lemma CountDown(lines: seq<Line>, w: nat, s0: State, t: nat, pc: PC, p: nat) returns (s: State)
    requires Reached(lines, w, s0) && Quiet(s0, t, pc, p + 1) && s0.threads[t] == PutWantMutex && s0.insmoding > 0
    ensures Reached(lines, w, s)
    ensures s == s0.(threads := s0.threads[t := PutSignal], mutex := Some(t), insmoding := s0.insmoding - 1)
  {
    s := Step(lines, w, s0, Run(t));
    s := Step(lines, w, s, Run(t));
  }

  lemma DoModule(lines: seq<Line>, w: nat, s0: State, t: nat, pc: PC, p: nat) returns (s: State)
    requires Reached(lines, w, s0) && AboutToRead(s0, t, pc, p) && p < |lines| && lines[p].Module?
    ensures Reached(lines, w, s) && AboutToRead(s, t, pc, p + 1)
  {
    s := ReadModule(lines, w, s0, t, pc, p);
    s := Insert(lines, w, s, t, pc, p);
    s := Put(lines, w, s, t, pc, p);
  }

  /** One worker alone can have done all lines before p. */
  lemma {:induction false} Alone(lines: seq<Line>, w: nat, p: nat) returns (s: State)
    requires w >= 2
    requires p <= |lines|
    ensures Reached(lines, w, s) && AboutToRead(s, 0, WantLock, p)
  {
    if p == 0 {
      s := Begin(lines, w);
    } else {
      s := Alone(lines, w, p - 1);
      if lines[p - 1].Header? {
        s := ReadHeader(lines, w, s, 0, p - 1);
      } else {
        s := DoModule(lines, w, s, 0, WantLock, p - 1);
      }
    }
  }

  /** The other one can do all module lines behind j up to p while the first is held up before its vfork for j. */
  lemma {:induction false} BehindBack(lines: seq<Line>, w: nat, j: nat, p: nat) returns (s: State)
    requires w >= 2
    requires j < p <= |lines| && lines[j].Module? && forall q :: j <= q < p ==> lines[q].Module?
    ensures Reached(lines, w, s) && AboutToRead(s, 1, Forking(j), p)
    decreases p
  {
    if p == j + 1 {
      s := Alone(lines, w, j);
      s := ReadModule(lines, w, s, 0, WantLock, j);
      s := Step(lines, w, s, Run(1));
    } else {
      s := BehindBack(lines, w, j, p - 1);
      s := DoModule(lines, w, s, 1, Forking(j), p - 1);
    }
  }

  /** Of two module lines without a header between them, or of which the second comes first, the second can be started
      while the first has not been reaped. */
  lemma CanOvertake(lines: seq<Line>, w: nat, j: nat, k: nat) returns (s: State, t: nat)
    requires w >= 2
    requires j < |lines| && k < |lines| && lines[k].Module? && lines[j].Module?
    requires forall q :: j <= q < k ==> lines[q].Module?
    ensures Reached(lines, w, s) && t < |s.threads| && s.threads[t] == Forking(k) && j !in s.reaped
  {
    if j < k {
      s := BehindBack(lines, w, j, k);
      t := 1;
      s := ReadModule(lines, w, s, 1, Forking(j), k);
    } else {
      s := Alone(lines, w, k);
      t := 0;
      s := ReadModule(lines, w, s, 0, WantLock, k);
    }
  }
}

// Model of autosuspend.c with the wakeup-count backend of autosuspend_wakeup_count.c:
// one controller thread that calls enable and disable, the suspend thread, the semaphore
// suspend_lockout between them, and the kernel's wakeup event counter. One action is one
// system call or one flag update.
module Autosuspend {

  /** The controller inside autosuspend_enable or autosuspend_disable. */
  datatype Controller =
    | Idle
    | EnablePost     // about to sem_post
    | EnableSet      // posted, about to set autosuspend_enabled
    | DisableWait    // about to sem_wait
    | DisableClear   // token taken, about to clear autosuspend_enabled

  /** The suspend thread inside its endless loop. */
  datatype Suspender =
    | NotStarted
    | AtRead         // about to sleep and read wakeup_count
    | AtWait         // count in hand, about to sem_wait
    | AtWriteCount   // token in hand, about to write the count back
    | AtWriteState   // count accepted, about to write "mem"
    | AtCallback     // woken again, about to call wakeup_func
    | AtPost         // about to sem_post

  datatype State = State(
    inited: bool,
    enabled: bool,
    ctl: Controller,
    thr: Suspender,
    sem: nat,        // value of suspend_lockout
    events: nat,     // wakeup events the kernel has seen
    count: nat       // what the suspend thread read last
  )

  datatype ReadResult = ReadFails | ReadsEmpty | ReadsCount

  datatype Action =
    | CallEnable(initOk: bool)
    | CallDisable(initOk: bool)
    | EnablePosts
    | EnableSets
    | DisableWaits(ok: bool)       // false: the wait is interrupted
    | DisableClears
    | ReadCount(r: ReadResult)
    | Wait(ok: bool)
    | WriteCount(ok: bool)
    | WriteMem(ok: bool)
    | Callback
    | Post
    | WakeupEvent

  const SEM_VALUE_MAX: nat := 0x7fff_ffff

  const START := State(false, false, Idle, NotStarted, 0, 0, 0)

  predicate Enabled(s: State, a: Action) {
    match a
    case CallEnable(_) => s.ctl.Idle?
    case CallDisable(_) => s.ctl.Idle?
    case EnablePosts => s.ctl.EnablePost?
    case EnableSets => s.ctl.EnableSet?
    case DisableWaits(ok) => s.ctl.DisableWait? && (ok ==> s.sem > 0)
    case DisableClears => s.ctl.DisableClear?
    case ReadCount(_) => s.thr.AtRead?
    case Wait(ok) => s.thr.AtWait? && (ok ==> s.sem > 0)
    case WriteCount(ok) => s.thr.AtWriteCount? && (ok ==> s.count == s.events)
    case WriteMem(_) => s.thr.AtWriteState?
    case Callback => s.thr.AtCallback?
    case Post => s.thr.AtPost?
    case WakeupEvent => true
  }

  /** autosuspend_init: on first success the semaphore is at 0 and the suspend thread exists. */
  function Initialised(s: State, initOk: bool): State {
    if s.inited || !initOk then s else s.(inited := true, thr := AtRead, sem := 0)
  }

  /** A post on a semaphore at its maximum fails and changes nothing. */
  function Posted(sem: nat): nat {
    if sem < SEM_VALUE_MAX then sem + 1 else sem
  }

  function Apply(s: State, a: Action): State
    requires Enabled(s, a)
  {
    match a
    case CallEnable(initOk) =>
      var s1 := Initialised(s, initOk);
      if !s1.inited || s1.enabled then s1 else s1.(ctl := EnablePost)
    case CallDisable(initOk) =>
      var s1 := Initialised(s, initOk);
      if !s1.inited || !s1.enabled then s1 else s1.(ctl := DisableWait)
    case EnablePosts => s.(sem := Posted(s.sem), ctl := if s.sem < SEM_VALUE_MAX then EnableSet else Idle)
    case EnableSets => s.(enabled := true, ctl := Idle)
    case DisableWaits(ok) => if ok then s.(sem := s.sem - 1, ctl := DisableClear) else s.(ctl := Idle)
    case DisableClears => s.(enabled := false, ctl := Idle)
    case ReadCount(r) => if r.ReadsCount? then s.(count := s.events, thr := AtWait) else s
    case Wait(ok) => if ok then s.(sem := s.sem - 1, thr := AtWriteCount) else s.(thr := AtRead)
    case WriteCount(ok) => s.(thr := if ok then AtWriteState else AtPost)
    case WriteMem(_) => s.(thr := AtCallback)
    case Callback => s.(thr := AtPost)
    case Post => s.(sem := Posted(s.sem), thr := AtRead)
    case WakeupEvent => s.(events := s.events + 1)
  }

  function Held(t: Suspender): nat {
    if t.AtWriteCount? || t.AtWriteState? || t.AtCallback? || t.AtPost? then 1 else 0
  }

  /** There is one token exactly while suspending is enabled; it is in the semaphore, with the suspend
      thread, or in transit through the controller. */
  ghost predicate Inv(s: State) {
    && s.sem + Held(s.thr) + (if s.ctl.DisableClear? then 1 else 0)
       == (if s.enabled then 1 else 0) + (if s.ctl.EnableSet? then 1 else 0)
    && (s.ctl.EnablePost? || s.ctl.EnableSet? ==> s.inited && !s.enabled)
    && (s.ctl.DisableWait? || s.ctl.DisableClear? ==> s.enabled)
    && (s.enabled ==> s.inited)
    && (s.thr.NotStarted? <==> !s.inited)
    && (Held(s.thr) == 1 || s.thr.AtWait? ==> s.count <= s.events)
  }

  lemma StepKeepsInv(s: State, a: Action)
    requires Inv(s) && Enabled(s, a)
    ensures Inv(Apply(s, a))
    ensures a.EnablePosts? || a.Post? ==> Apply(s, a).sem == s.sem + 1
  {
  }

  /** Each state follows from the one before by the action beside it. */
  ghost predicate Follows(tr: seq<State>, acts: seq<Action>) {
    && |tr| == |acts| + 1
    && forall i :: 0 <= i < |acts| ==> Enabled(tr[i], acts[i]) && tr[i + 1] == Apply(tr[i], acts[i])
  }

  ghost predicate IsRun(tr: seq<State>, acts: seq<Action>) {
    Follows(tr, acts) && tr[0] == START
  }

  lemma {:induction false} KeepsInv(tr: seq<State>, acts: seq<Action>, i: nat)
    requires Follows(tr, acts) && Inv(tr[0]) && i < |tr|
    ensures Inv(tr[i])
  {
    if i > 0 {
      KeepsInv(tr, acts, i - 1);
      StepKeepsInv(tr[i - 1], acts[i - 1]);
    }
  }

  lemma RunKeepsInv(tr: seq<State>, acts: seq<Action>, i: nat)
    requires IsRun(tr, acts) && i < |tr|
    ensures Inv(tr[i])
  {
    KeepsInv(tr, acts, i);
  }

  // ----- No suspend while disabled -----

  /** Disabled, and no enable has posted its token. */
  ghost predicate Quiet(s: State) {
    !s.enabled && !s.ctl.EnableSet?
  }

  lemma {:induction false} StaysQuiet(tr: seq<State>, acts: seq<Action>, i: nat, j: nat)
    requires IsRun(tr, acts) && i <= j < |tr| && Quiet(tr[i])
    requires forall k :: i <= k < j ==> !acts[k].EnablePosts?
    ensures Quiet(tr[j])
  {
    if i < j {
      StaysQuiet(tr, acts, i, j - 1);
    }
  }

  /** From any state in which suspending is disabled until the next enable posts its token, nothing is written to the
      power state, and the suspend thread does not even hold the token. */
  lemma NoSuspendWhileDisabled(tr: seq<State>, acts: seq<Action>, i: nat, j: nat)
    requires IsRun(tr, acts) && i <= j < |acts| && Quiet(tr[i])
    requires forall k :: i <= k < j ==> !acts[k].EnablePosts?
    ensures !acts[j].WriteMem? && !acts[j].WriteCount?
    ensures tr[j].sem == 0 && Held(tr[j].thr) == 0
  {
    StaysQuiet(tr, acts, i, j);
    RunKeepsInv(tr, acts, j);
  }

  /** A call of disable that returns 0, having cleared the flag or found it clear. */
  ghost predicate DisableSucceeds(s: State, a: Action)
    requires Enabled(s, a)
  {
    a.DisableClears? || (a.CallDisable? && Apply(s, a).inited && Apply(s, a).ctl.Idle?)
  }

  /** So nothing is written from the moment any call of disable has returned 0. */
  lemma NoSuspendAfterDisable(tr: seq<State>, acts: seq<Action>, i: nat, j: nat)
    requires IsRun(tr, acts) && i < j < |acts| && DisableSucceeds(tr[i], acts[i])
    requires forall k :: i < k < j ==> !acts[k].EnablePosts?
    ensures !acts[j].WriteMem? && !acts[j].WriteCount?
    ensures tr[j].sem == 0 && Held(tr[j].thr) == 0
  {
    RunKeepsInv(tr, acts, i);
    NoSuspendWhileDisabled(tr, acts, i + 1, j);
  }

  // ----- The wakeup-count handshake -----

  predicate IsSuspenderAction(a: Action) {
    a.ReadCount? || a.Wait? || a.WriteCount? || a.WriteMem? || a.Callback? || a.Post?
  }

  /** No action of the suspend thread among those from i up to j. */
  ghost predicate Still(acts: seq<Action>, i: int, j: int) {
    forall k :: i <= k < j && 0 <= k < |acts| ==> !IsSuspenderAction(acts[k])
  }

  lemma OthersLeaveSuspender(s: State, a: Action)
    requires Enabled(s, a) && !IsSuspenderAction(a)
    ensures Apply(s, a).count == s.count
    ensures Apply(s, a).thr == s.thr || Apply(s, a).thr == AtRead
  {
  }

  /** How the suspend thread came to its place at j: its latest own action before j. */
  lemma {:induction false} LatestOwnAction(tr: seq<State>, acts: seq<Action>, j: nat) returns (i: nat)
    requires IsRun(tr, acts) && j < |tr|
    requires tr[j].thr.AtWait? || Held(tr[j].thr) == 1
    ensures i < j && IsSuspenderAction(acts[i]) && Still(acts, i + 1, j)
    ensures tr[i + 1].thr == tr[j].thr && tr[i + 1].count == tr[j].count
  {
    assert j > 0;
    if IsSuspenderAction(acts[j - 1]) {
      i := j - 1;
    } else {
      OthersLeaveSuspender(tr[j - 1], acts[j - 1]);
      i := LatestOwnAction(tr, acts, j - 1);
    }
  }

  lemma {:induction false} EventsGrow(tr: seq<State>, acts: seq<Action>, i: nat, j: nat)
    requires IsRun(tr, acts) && i <= j < |tr|
    ensures tr[i].events <= tr[j].events
    ensures tr[i].events == tr[j].events ==> forall k :: i <= k < j ==> !acts[k].WakeupEvent?
  {
    if i < j {
      EventsGrow(tr, acts, i, j - 1);
    }
  }

  /** Each write of "mem" is preceded, in the same iteration of the loop, by a read of the wakeup count,
      the taking of the token and an accepted write of that count; and no wakeup event fell between the
      read and the acceptance. */
  lemma MemWriteFollowsHandshake(tr: seq<State>, acts: seq<Action>, j: nat) returns (r: nat, q: nat, w: nat)
    requires IsRun(tr, acts) && j < |acts| && acts[j].WriteMem?
    ensures r < q < w < j
    ensures acts[r] == ReadCount(ReadsCount) && acts[q] == Wait(true) && acts[w] == WriteCount(true)
    ensures Still(acts, r + 1, q) && Still(acts, q + 1, w) && Still(acts, w + 1, j)
    ensures tr[w].count == tr[r].events
    ensures forall k :: r <= k < w ==> !acts[k].WakeupEvent?
  {
    w := LatestOwnAction(tr, acts, j);
    q := LatestOwnAction(tr, acts, w);
    r := LatestOwnAction(tr, acts, q);
    EventsGrow(tr, acts, r, w);
  }

  // ----- A waiting disable gets its token -----

  /** Steps the suspend thread still takes before it posts the token back. */
  function StepsToPost(t: Suspender): nat {
    match t
    case AtWriteCount => 4
    case AtWriteState => 3
    case AtCallback => 2
    case AtPost => 1
    case _ => 0
  }

  /** A controller blocked in disable waits only for a suspend thread that holds the token, that can move,
      and that each of its own moves brings nearer to posting it. */
  lemma DisableIsNotStuck(s: State)
    requires Inv(s) && s.ctl.DisableWait? && s.sem == 0
    ensures exists a :: IsSuspenderAction(a) && Enabled(s, a)
    ensures forall a :: IsSuspenderAction(a) && Enabled(s, a) ==>
              && StepsToPost(Apply(s, a).thr) < StepsToPost(s.thr)
              && (StepsToPost(Apply(s, a).thr) == 0 ==> Apply(s, a).sem == 1)
  {
    assert IsSuspenderAction(WriteCount(false)) && IsSuspenderAction(WriteMem(true));
    assert IsSuspenderAction(Callback) && IsSuspenderAction(Post);
    assert Enabled(s, WriteCount(false)) || Enabled(s, WriteMem(true)) || Enabled(s, Callback) || Enabled(s, Post);
  }
}

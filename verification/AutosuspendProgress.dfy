// What the calls of autosuspend.c and the suspend thread of autosuspend_wakeup_count.c bring about, whatever happens
// between their own moves.
module AutosuspendProgress {
  import opened Autosuspend

  // ----- The controller -----

  predicate IsControllerAction(a: Action) {
    a.CallEnable? || a.CallDisable? || a.EnablePosts? || a.EnableSets? || a.DisableWaits? || a.DisableClears?
  }

  /** The controller does nothing from i up to j. */
  ghost predicate Resting(acts: seq<Action>, i: nat, j: nat) {
    forall k :: i <= k < j && k < |acts| ==> !IsControllerAction(acts[k])
  }

  /** The controller's move after the one at i is the one at j. */
  ghost predicate NextMove(acts: seq<Action>, i: nat, j: nat) {
    i < j < |acts| && IsControllerAction(acts[j]) && Resting(acts, i + 1, j)
  }

  /** Tokens in the semaphore and with the suspend thread. */
  function Tokens(s: State): nat { s.sem + Held(s.thr) }

  lemma OthersLeaveController(s: State, a: Action)
    requires Inv(s) && Enabled(s, a) && !IsControllerAction(a)
    ensures Apply(s, a).ctl == s.ctl && Apply(s, a).enabled == s.enabled && Apply(s, a).inited == s.inited
    ensures Tokens(Apply(s, a)) == Tokens(s)
  {
  }

  lemma {:induction false} ControllerRests(tr: seq<State>, acts: seq<Action>, i: nat, j: nat)
    requires Follows(tr, acts) && Inv(tr[0]) && i <= j < |tr| && Resting(acts, i, j)
    ensures tr[j].ctl == tr[i].ctl && tr[j].enabled == tr[i].enabled && tr[j].inited == tr[i].inited
    ensures Tokens(tr[j]) == Tokens(tr[i])
  {
    if i < j {
      ControllerRests(tr, acts, i, j - 1);
      KeepsInv(tr, acts, j - 1);
      OthersLeaveController(tr[j - 1], acts[j - 1]);
    }
  }

  /** The controller can make this move, and no other. */
  ghost predicate OnlyMove(s: State, a: Action) {
    Enabled(s, a) && forall b :: IsControllerAction(b) && Enabled(s, b) ==> b == a
  }

  /** The call at i finds autosuspend initialised, or initialises it. */
  ghost predicate InitWorks(tr: seq<State>, acts: seq<Action>, i: nat)
    requires i < |acts| && i < |tr|
  {
    (acts[i].CallEnable? || acts[i].CallDisable?) && (tr[i].inited || acts[i].initOk)
  }

  /** A call of enable with suspending disabled: whatever the others do, the controller can post the token, and can do
      nothing else. */
  lemma EnableCanPost(tr: seq<State>, acts: seq<Action>, i: nat, j: nat)
    requires Follows(tr, acts) && Inv(tr[0]) && i < j < |tr| && Resting(acts, i + 1, j)
    requires acts[i].CallEnable? && InitWorks(tr, acts, i) && !tr[i].enabled
    ensures OnlyMove(tr[j], EnablePosts) && !tr[j].enabled && Tokens(tr[j]) == 0
  {
    KeepsInv(tr, acts, i);
    ControllerRests(tr, acts, i + 1, j);
  }

  /** Having posted it, it can set the flag, and nothing else. */
  lemma EnableCanSet(tr: seq<State>, acts: seq<Action>, p: nat, j: nat)
    requires Follows(tr, acts) && Inv(tr[0]) && p < j < |tr| && Resting(acts, p + 1, j) && acts[p].EnablePosts?
    ensures OnlyMove(tr[j], EnableSets) && Tokens(tr[j]) == Tokens(tr[p]) + 1
  {
    KeepsInv(tr, acts, p);
    ControllerRests(tr, acts, p + 1, j);
  }

  /** A call of enable enables: its next two moves post one token and set the flag, and the call is over. */
  lemma EnableEnables(tr: seq<State>, acts: seq<Action>, i: nat, p: nat, e: nat)
    requires Follows(tr, acts) && Inv(tr[0]) && NextMove(acts, i, p) && NextMove(acts, p, e)
    requires acts[i].CallEnable? && InitWorks(tr, acts, i) && !tr[i].enabled
    ensures acts[p] == EnablePosts && acts[e] == EnableSets
    ensures Tokens(tr[i]) == 0 && Tokens(tr[p + 1]) == 1 == Tokens(tr[e + 1])
    ensures tr[e + 1].enabled && tr[e + 1].ctl.Idle?
  {
    KeepsInv(tr, acts, i);
    EnableCanPost(tr, acts, i, p);
    KeepsInv(tr, acts, p);
    EnableCanSet(tr, acts, p, e);
  }

  /** A call of disable with suspending enabled: the controller can do nothing but wait for the token, and can take it
      as soon as the semaphore has it; otherwise the suspend thread has it. */
  lemma DisableCanWait(tr: seq<State>, acts: seq<Action>, i: nat, j: nat)
    requires Follows(tr, acts) && Inv(tr[0]) && i < j < |tr| && Resting(acts, i + 1, j)
    requires acts[i].CallDisable? && tr[i].enabled
    ensures forall b :: IsControllerAction(b) && Enabled(tr[j], b) ==> b.DisableWaits?
    ensures Enabled(tr[j], DisableWaits(true)) <==> Held(tr[j].thr) == 0
    ensures tr[j].enabled && Tokens(tr[j]) == 1
  {
    KeepsInv(tr, acts, i);
    ControllerRests(tr, acts, i + 1, j);
  }

  /** With the token taken, it can clear the flag, and nothing else. */
  lemma DisableCanClear(tr: seq<State>, acts: seq<Action>, p: nat, j: nat)
    requires Follows(tr, acts) && Inv(tr[0]) && p < j < |tr| && Resting(acts, p + 1, j) && acts[p] == DisableWaits(true)
    ensures OnlyMove(tr[j], DisableClears) && Tokens(tr[j]) == 0
  {
    KeepsInv(tr, acts, p);
    ControllerRests(tr, acts, p + 1, j);
  }

  /** A call of disable whose wait is not interrupted disables: the token is gone and the flag is clear. */
  lemma DisableDisables(tr: seq<State>, acts: seq<Action>, i: nat, p: nat, e: nat)
    requires Follows(tr, acts) && Inv(tr[0]) && NextMove(acts, i, p) && NextMove(acts, p, e)
    requires acts[i].CallDisable? && tr[i].enabled && acts[p] != DisableWaits(false)
    ensures acts[p] == DisableWaits(true) && acts[e] == DisableClears
    ensures Tokens(tr[i]) == 1 && Tokens(tr[p + 1]) == 0 == Tokens(tr[e + 1])
    ensures !tr[e + 1].enabled && tr[e + 1].ctl.Idle?
  {
    KeepsInv(tr, acts, i);
    DisableCanWait(tr, acts, i, p);
    KeepsInv(tr, acts, p);
    DisableCanClear(tr, acts, p, e);
  }

  /** The calls that are over at once, and a wait that is interrupted: flag and token stay as they were. */
  lemma NothingToDo(tr: seq<State>, acts: seq<Action>, i: nat)
    requires Follows(tr, acts) && Inv(tr[0]) && i < |acts|
    requires acts[i] == DisableWaits(false) || ((acts[i].CallEnable? || acts[i].CallDisable?) &&
               (!InitWorks(tr, acts, i) || tr[i].enabled == acts[i].CallEnable?))
    ensures tr[i + 1].ctl.Idle? && tr[i + 1].enabled == tr[i].enabled && Tokens(tr[i + 1]) == Tokens(tr[i])
  {
    KeepsInv(tr, acts, i);
  }

  // ----- The suspend thread -----

  /** The suspend thread's action after the one at i is the one at j. */
  ghost predicate NextOwn(acts: seq<Action>, i: nat, j: nat) {
    i < j < |acts| && IsSuspenderAction(acts[i]) && IsSuspenderAction(acts[j]) && Still(acts, i + 1, j)
  }

  /** The order in which the endless loop makes its calls. */
  predicate MayFollow(a: Action, b: Action) {
    match a
    case ReadCount(r) => if r.ReadsCount? then b.Wait? else b.ReadCount?
    case Wait(ok) => if ok then b.WriteCount? else b.ReadCount?
    case WriteCount(ok) => if ok then b.WriteMem? else b.Post?
    case WriteMem(_) => b.Callback?
    case Callback => b.Post?
    case Post => b.ReadCount?
    case _ => false
  }

  lemma {:induction false} SuspenderRests(tr: seq<State>, acts: seq<Action>, i: nat, j: nat)
    requires Follows(tr, acts) && Inv(tr[0]) && i <= j < |tr| && Still(acts, i, j) && tr[i].inited
    ensures tr[j].thr == tr[i].thr && tr[j].inited
  {
    if i < j {
      SuspenderRests(tr, acts, i, j - 1);
      KeepsInv(tr, acts, j - 1);
    }
  }

  /** In every run the suspend thread's own actions follow each other as the loop says: in particular an accepted count
      is followed by the write of the sleep state, that by the callback, and that by the post. */
  lemma LoopOrder(tr: seq<State>, acts: seq<Action>, i: nat, j: nat)
    requires Follows(tr, acts) && Inv(tr[0]) && NextOwn(acts, i, j)
    ensures MayFollow(acts[i], acts[j])
  {
    KeepsInv(tr, acts, i);
    SuspenderRests(tr, acts, i + 1, j);
  }

  /** It is never stuck but for the token. */
  lemma SuspenderCanMove(s: State)
    requires Inv(s) && s.inited
    ensures (s.thr.AtWait? && s.sem == 0) || exists a :: IsSuspenderAction(a) && Enabled(s, a) && a != Wait(false)
  {
    var a := match s.thr
      case AtRead => ReadCount(ReadsCount)
      case AtWait => Wait(true)
      case AtWriteCount => WriteCount(false)
      case AtWriteState => WriteMem(true)
      case AtCallback => Callback
      case _ => Post;
    assert IsSuspenderAction(a) && (Enabled(s, a) || (s.thr.AtWait? && s.sem == 0));
  }

  // ----- Suspending does happen -----

  /** An own action of the suspend thread that does not fail. */
  predicate Succeeds(a: Action) {
    a == ReadCount(ReadsCount) || a == Wait(true) || a == WriteCount(true) || a.WriteMem? || a.Callback? || a.Post?
  }

  /** Where the thread stands after n actions from AtRead, none of which failed. */
  function PlaceAfter(n: nat): Suspender {
    match n % 6
    case 0 => AtRead
    case 1 => AtWait
    case 2 => AtWriteCount
    case 3 => AtWriteState
    case 4 => AtCallback
    case _ => AtPost
  }

  /** After n such actions, with suspending enabled and no call going on. */
  ghost predicate At(s: State, n: nat) {
    && s.thr == PlaceAfter(n) && s.enabled && s.ctl.Idle?
    && (s.thr.AtWait? || s.thr.AtWriteCount? ==> s.count == s.events)
  }

  lemma NextPlace(s: State, a: Action, n: nat)
    requires At(s, n) && Succeeds(a) && Enabled(s, a)
    ensures At(Apply(s, a), n + 1)
  {
    assert n % 6 < 5 ==> (n + 1) % 6 == n % 6 + 1;
  }

  lemma {:induction false} PlaceIs(tr: seq<State>, acts: seq<Action>, n: nat)
    requires Follows(tr, acts) && n < |tr|
    requires tr[0].enabled && tr[0].ctl.Idle? && tr[0].thr.AtRead?
    requires forall k :: 0 <= k < n ==> Succeeds(acts[k])
    ensures At(tr[n], n)
  {
    if n > 0 {
      PlaceIs(tr, acts, n - 1);
      NextPlace(tr[n - 1], acts[n - 1], n - 1);
    }
  }

  /** While suspending is enabled, with no call and no wakeup event, the thread can always go on without a failure, and
      then each sixth of its actions, from the fourth on, writes the sleep state. */
  lemma EnabledMeansSuspending(tr: seq<State>, acts: seq<Action>)
    requires Follows(tr, acts) && Inv(tr[0])
    requires tr[0].enabled && tr[0].ctl.Idle? && tr[0].thr.AtRead?
    requires forall k :: 0 <= k < |acts| ==> Succeeds(acts[k])
    ensures forall k :: 0 <= k < |acts| ==> (acts[k].WriteMem? <==> k % 6 == 3)
    ensures exists a :: Succeeds(a) && Enabled(tr[|acts|], a)
  {
    var s := tr[|acts|];
    forall k | 0 <= k < |acts| ensures acts[k].WriteMem? <==> k % 6 == 3 { PlaceIs(tr, acts, k); }
    PlaceIs(tr, acts, |acts|);
    KeepsInv(tr, acts, |acts|);
    var a := match s.thr
      case AtRead => ReadCount(ReadsCount)
      case AtWait => Wait(true)
      case AtWriteCount => WriteCount(true)
      case AtWriteState => WriteMem(true)
      case AtCallback => Callback
      case _ => Post;
    assert Succeeds(a) && Enabled(s, a);
  }
}

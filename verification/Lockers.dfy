/** wallet/wallet.go: the goroutine that locks and unlocks the wallet.  It serves one
    request at a time, and none while somebody holds the wallet unlocked. */
module Lockers {

  /** A timer is a channel that may become ready; none is the nil channel. */
  datatype Timer = Never | Timer(id: nat)

  /** What can happen.  `Elapse` is a timer becoming ready; `Expire` is the
      goroutine noticing that its own timer is. */
  datatype Event =
    | Unlock(correct: bool, lockAfter: Timer)
    | Lock
    | ChangePassphrase
    | Hold
    | Release
    | IsLocked
    | Elapse(timer: Timer)
    | Expire

  datatype State = State(locked: bool, timeout: Timer, held: bool, ready: set<Timer>)

  const START := State(true, Never, false, {})

  /** Whether the goroutine can take up an event: while the wallet is held it waits
      for the release, and only timers go on. */
  predicate Enabled(s: State, e: Event) {
    match e
    case Elapse(t) => t.Timer?
    case Release => s.held
    case Expire => !s.held && s.timeout.Timer? && s.timeout in s.ready
    case _ => !s.held
  }

  function Locked(s: State): State {
    State(true, Never, false, s.ready)
  }

  function Next(s: State, e: Event): State
    requires Enabled(s, e)
  {
    match e
    case Unlock(correct, lockAfter) =>
      if !correct then s.(locked := true)
      else if !s.locked && s.timeout.Never? && lockAfter.Timer? then s
      else s.(locked := false, timeout := lockAfter)
    case Lock => Locked(s)
    case ChangePassphrase => s
    case Hold => if s.locked then s else s.(held := true)
    case Release =>
      if s.timeout.Timer? && s.timeout in s.ready then Locked(s.(ready := s.ready - {s.timeout}))
      else s.(held := false)
    case IsLocked => s
    case Elapse(t) => s.(ready := s.ready + {t})
    case Expire => Locked(s.(ready := s.ready - {s.timeout}))
  }

  /** The event loop's state, and its reaction to every event. */
  class WalletLocker {
    var locked: bool
    var timeout: Timer
    var held: bool
    var ready: set<Timer>

    function Current(): State
      reads this
    {
      State(locked, timeout, held, ready)
    }

    constructor ()
      ensures Current() == START
    {
      locked, timeout, held, ready := true, Never, false, {};
    }

    method Serve(e: Event) returns (ok: bool)
      requires Enabled(Current(), e)
      modifies this
      ensures Current() == Next(old(Current()), e)
      ensures e.Unlock? ==> ok == e.correct
      ensures e.Hold? ==> ok == !old(locked)
      ensures e.IsLocked? ==> ok == old(locked)
    {
      ok := true;
      match e {
        case Unlock(correct, lockAfter) =>
          var hadTimeout := timeout != Never;
          var wasLocked := locked;
          if !correct {
            locked := true;
            return false;
          }
          locked := false;
          if !wasLocked && !hadTimeout && lockAfter != Never {
            return;
          }
          timeout := lockAfter;
          return;
        case ChangePassphrase =>
          return;
        case Hold =>
          if locked {
            return false;
          }
          held := true;
          return;
        case Release =>
          held := false;
          if timeout == Never || timeout !in ready {
            return;
          }
          ready := ready - {timeout};
        case IsLocked =>
          return locked;
        case Elapse(t) =>
          ready := ready + {t};
          return;
        case Lock =>
        case Expire =>
          ready := ready - {timeout};
      }
      timeout := Never;
      locked := true;
    }
  }

  // ----- runs -----

  /** The states of a run, one more than its events. */
  ghost predicate IsRun(states: seq<State>, events: seq<Event>) {
    && |states| == |events| + 1
    && states[0] == START
    && forall i :: 0 <= i < |events| ==> Enabled(states[i], events[i]) && states[i + 1] == Next(states[i], events[i])
  }

  /** Somebody holding the wallet has it unlocked. */
  lemma {:induction false} HeldIsUnlocked(states: seq<State>, events: seq<Event>, i: nat)
    requires IsRun(states, events) && i < |states|
    ensures states[i].held ==> !states[i].locked
    decreases i
  {
    if i > 0 {
      HeldIsUnlocked(states, events, i - 1);
    }
  }

  /** From a granted hold to its release the wallet stays unlocked, whatever else is
      asked for. */
  lemma {:induction false} UnlockedWhileHeld(states: seq<State>, events: seq<Event>, i: nat, j: nat)
    requires IsRun(states, events) && i < j < |states|
    requires events[i].Hold? && !states[i].locked
    requires forall k :: i < k < j ==> !events[k].Release?
    ensures states[j].held && !states[j].locked
    decreases j
  {
    if j > i + 1 {
      UnlockedWhileHeld(states, events, i, j - 1);
    }
  }

  /** If the wallet's timer elapses while it is held, the release locks it: it is
      locked before any other request is served. */
  lemma {:induction false} ReleaseLocks(states: seq<State>, events: seq<Event>, i: nat, j: nat)
    requires IsRun(states, events) && i < j < |events|
    requires states[i].held && events[i] == Elapse(states[i].timeout)
    requires events[j].Release? && forall k :: i < k < j ==> !events[k].Release?
    ensures states[j + 1].locked && states[j + 1].timeout.Never?
  {
    StillReady(states, events, i, j);
  }

  lemma {:induction false} StillReady(states: seq<State>, events: seq<Event>, i: nat, j: nat)
    requires IsRun(states, events) && i < j < |states|
    requires states[i].held && events[i] == Elapse(states[i].timeout)
    requires forall k :: i < k < j ==> !events[k].Release?
    ensures states[j].held && states[j].timeout == states[i].timeout && states[i].timeout in states[j].ready
    decreases j
  {
    if j > i + 1 {
      StillReady(states, events, i, j - 1);
    }
  }

  /** Requests wait exactly while somebody holds the wallet; only the release and elapsing
      timers do not. */
  lemma WaitsWhileHeld(s: State, e: Event)
    requires !e.Release? && !e.Elapse? && !e.Expire?
    ensures Enabled(s, e) <==> !s.held
    ensures s.held ==> Enabled(s, Release)
  {
  }

  /** In every run, after a release nobody holds the wallet and every request is served.
      If its timer has not elapsed, it is as it was before the hold's release: unlocked,
      with the same limit. */
  lemma ReleaseFrees(states: seq<State>, events: seq<Event>, i: nat, e: Event)
    requires IsRun(states, events) && i < |events| && events[i].Release?
    requires !e.Release? && !e.Elapse? && !e.Expire?
    ensures !states[i + 1].held && Enabled(states[i + 1], e)
    ensures !(states[i].timeout.Timer? && states[i].timeout in states[i].ready) ==>
              !states[i + 1].locked && states[i + 1].timeout == states[i].timeout
  {
    HeldIsUnlocked(states, events, i);
  }

  /** In every run the wallet is held exactly between a granted hold and the next
      release. */
  lemma {:induction false} HeldExactly(states: seq<State>, events: seq<Event>, j: nat)
    requires IsRun(states, events) && j < |states|
    ensures states[j].held <==>
            exists i :: 0 <= i < j && events[i].Hold? && !states[i].locked && forall k :: i < k < j ==> !events[k].Release?
    decreases j
  {
    if j > 0 {
      HeldExactly(states, events, j - 1);
      var e := events[j - 1];
      if states[j].held && !(e.Hold? && !states[j - 1].locked) {
        assert states[j - 1].held;
        var i :| 0 <= i < j - 1 && events[i].Hold? && !states[i].locked && forall k :: i < k < j - 1 ==> !events[k].Release?;
      }
      if i :| 0 <= i < j && events[i].Hold? && !states[i].locked && forall k :: i < k < j ==> !events[k].Release? {
        if i < j - 1 {
          assert !events[j - 1].Release?;
        }
      }
    }
  }

  /** A timer that elapsed stays ready until it is noticed as the wallet's own. */
  lemma ReadyExactly(s: State, e: Event, t: Timer)
    requires Enabled(s, e)
    ensures var s' := Next(s, e);
            t in s'.ready <==> e == Elapse(t) || (t in s.ready && !((e.Expire? || e.Release?) && t == s.timeout && t.Timer?))
  {
  }

  // ----- what the users see -----

  /** The wallet is locked, or unlocked with a limit or without. */
  datatype Mode = IsClosed | IsOpen | IsOpenUntil(timer: Timer)

  /** A timer left from before a failed unlock means nothing to users. */
  function ModeOf(s: State): Mode {
    if s.locked then IsClosed
    else if s.timeout.Never? then IsOpen
    else IsOpenUntil(s.timeout)
  }

  /** The rules: a failed unlock locks; an unlimited unlock lifts the limit; a
      limited one replaces the limit, but does not limit what is unlimited; only
      the timer of the current limit locks. */
  function NextMode(m: Mode, e: Event, expired: bool): Mode {
    match e
    case Unlock(correct, lockAfter) =>
      if !correct then IsClosed
      else if lockAfter.Never? then IsOpen
      else if m.IsOpen? then IsOpen
      else IsOpenUntil(lockAfter)
    case Lock => IsClosed
    case Release => if m.IsOpenUntil? && expired then IsClosed else m
    case Expire => if m.IsOpenUntil? && expired then IsClosed else m
    case _ => m
  }

  /** The goroutine follows the rules, also when a timer survived a failed
      unlock. */
  lemma FollowsRules(s: State, e: Event)
    requires Enabled(s, e) && (s.held ==> !s.locked)
    ensures ModeOf(Next(s, e)) == NextMode(ModeOf(s), e, s.timeout in s.ready)
  {
  }

  /** A wallet unlocked without a limit stays unlocked until somebody locks it or
      gives a wrong passphrase, whatever timers elapse and however often it is
      unlocked for a limited time meanwhile. */
  lemma {:induction false} UnlimitedStaysUnlocked(states: seq<State>, events: seq<Event>, i: nat, j: nat)
    requires IsRun(states, events) && i < j < |states|
    requires events[i] == Unlock(true, Never)
    requires forall k :: i < k < j ==> !events[k].Lock? && !(events[k].Unlock? && !events[k].correct)
    ensures ModeOf(states[j]) == IsOpen
    decreases j
  {
    if j > i + 1 {
      UnlimitedStaysUnlocked(states, events, i, j - 1);
    }
  }

  /** A wallet that became locked was locked on request, by a wrong passphrase, or
      by its own elapsed limit. */
  lemma WhyLocked(states: seq<State>, events: seq<Event>, i: nat)
    requires IsRun(states, events) && i < |events|
    requires !states[i].locked && states[i + 1].locked
    ensures events[i].Lock? || (events[i].Unlock? && !events[i].correct)
            || ((events[i].Expire? || events[i].Release?)
                && ModeOf(states[i]) == IsOpenUntil(states[i].timeout) && states[i].timeout in states[i].ready)
  {
  }
}

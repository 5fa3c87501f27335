/**
One transport shared by any number of threads behind a reentrant lock. Every wrapped call and every
exclusive section is a frame: it is entered by acquiring the lock and left by releasing it, whether or
not the code inside raised.
*/
module Synchronized {
  import opened Sequences

  type Thread = nat

  datatype Call = Connect | Close | Execute
  datatype Frame = InCall(call: Call) | InExclusive

  datatype Event = Entered(thread: Thread, frame: Frame) | Left(thread: Thread, frame: Frame, raised: bool)

  datatype Lock = Lock(owner: Option<Thread>, depth: nat)

  // ----- The reentrant lock -----

  predicate CanAcquire(lock: Lock, t: Thread) { lock.owner.None? || lock.owner.value == t }

  function Acquire(lock: Lock, t: Thread): Lock {
    if lock.owner == Some(t) then lock.(depth := lock.depth + 1) else Lock(Some(t), 1)
  }

  predicate CanRelease(lock: Lock, t: Thread) { lock.owner == Some(t) && lock.depth > 0 }

  function Release(lock: Lock, t: Thread): Lock
    requires CanRelease(lock, t)
  {
    if lock.depth == 1 then Lock(None, 0) else lock.(depth := lock.depth - 1)
  }

  // ----- Threads -----

  /** The lock, the open frames of every thread, innermost last, and the global order of events. */
  datatype State = State(lock: Lock, frames: map<Thread, seq<Frame>>, history: seq<Event>)

  function FramesOf(s: State, t: Thread): seq<Frame> {
    if t in s.frames then s.frames[t] else []
  }

  datatype Action = Enter(thread: Thread, frame: Frame) | Leave(thread: Thread, raised: bool)

  /** A thread inside a wrapped call is busy in the transport and enters nothing else. */
  predicate CanAct(s: State, a: Action) {
    var open := FramesOf(s, a.thread);
    match a
    case Enter(t, _) => CanAcquire(s.lock, t) && (open != [] ==> open[|open| - 1].InExclusive?)
    case Leave(t, _) => open != [] && CanRelease(s.lock, t)
  }

  function Next(s: State, a: Action): State
    requires CanAct(s, a)
  {
    var open := FramesOf(s, a.thread);
    match a
    case Enter(t, frame) =>
      State(Acquire(s.lock, t), s.frames[t := open + [frame]], s.history + [Entered(t, frame)])
    case Leave(t, raised) =>
      State(Release(s.lock, t), s.frames[t := open[..|open| - 1]],
        s.history + [Left(t, open[|open| - 1], raised)])
  }

  predicate Initial(s: State) { s == State(Lock(None, 0), map[], []) }

  ghost predicate Run(states: seq<State>, actions: seq<Action>) {
    && |states| == |actions| + 1 && Initial(states[0])
    && forall i :: 0 <= i < |actions| ==> CanAct(states[i], actions[i]) && states[i + 1] == Next(states[i], actions[i])
  }

  // ----- The invariant -----

  /** The frames that a thread has entered and not left, counted from the history alone. */
  function OpenFrames(history: seq<Event>, t: Thread): int {
    if history == [] then 0
    else
      var last := history[|history| - 1];
      OpenFrames(history[..|history| - 1], t) + (if last.thread != t then 0 else if last.Entered? then 1 else -1)
  }

  lemma OpenFramesSnoc(history: seq<Event>, e: Event, t: Thread)
    ensures OpenFrames(history + [e], t) ==
      OpenFrames(history, t) + (if e.thread != t then 0 else if e.Entered? then 1 else -1)
  {
    assert (history + [e])[..|history|] == history;
  }

  predicate OnlyLastInCall(open: seq<Frame>) {
    forall i :: 0 <= i < |open| - 1 ==> open[i].InExclusive?
  }

  /** The lock is held by the one thread that has open frames, once for each of them. */
  ghost predicate Inv(s: State) {
    && (forall t: Thread :: |FramesOf(s, t)| == if s.lock.owner == Some(t) then s.lock.depth else 0)
    && (s.lock.owner.Some? <==> s.lock.depth > 0)
    && (forall t: Thread :: OpenFrames(s.history, t) == |FramesOf(s, t)|)
    && (forall t: Thread :: OnlyLastInCall(FramesOf(s, t)))
  }

  lemma NextKeepsInv(s: State, a: Action)
    requires Inv(s) && CanAct(s, a)
    ensures Inv(Next(s, a))
  {
    var n := Next(s, a);
    var e := n.history[|n.history| - 1];
    assert n.history == s.history + [e];
    forall t: Thread
      ensures |FramesOf(n, t)| == (if n.lock.owner == Some(t) then n.lock.depth else 0)
      ensures OpenFrames(n.history, t) == |FramesOf(n, t)|
      ensures OnlyLastInCall(FramesOf(n, t))
    {
      OpenFramesSnoc(s.history, e, t);
      assert OnlyLastInCall(FramesOf(s, t));
      assert |FramesOf(s, t)| == if s.lock.owner == Some(t) then s.lock.depth else 0;
    }
  }

  lemma {:induction false} RunKeepsInv(states: seq<State>, actions: seq<Action>, i: nat)
    requires Run(states, actions) && i < |states|
    ensures Inv(states[i]) && |states[i].history| == i
    ensures forall j :: 0 <= j <= i ==> states[j].history == states[i].history[..j]
  {
    if i > 0 {
      RunKeepsInv(states, actions, i - 1);
      NextKeepsInv(states[i - 1], actions[i - 1]);
      var h := states[i].history;
      assert h[..i - 1] == states[i - 1].history;
      forall j | 0 <= j <= i ensures states[j].history == h[..j] {
        if j < i {
          assert h[..j] == h[..i - 1][..j];
        } else {
          assert h[..i] == h;
        }
      }
    } else {
      assert states[0].history[..0] == [];
    }
  }

  // ----- What it means for the threads -----

  /**
  Wrapped calls never overlap anything: the event after the start of a call is the end of that same
  call, by the same thread.
  */
  lemma CallsDoNotOverlap(states: seq<State>, actions: seq<Action>, k: nat)
    requires Run(states, actions) && k + 1 < |states[|actions|].history|
    requires states[|actions|].history[k].Entered? && states[|actions|].history[k].frame.InCall?
    ensures var h := states[|actions|].history;
      && h[k + 1].Left? && h[k + 1].thread == h[k].thread && h[k + 1].frame == h[k].frame
  {
    RunKeepsInv(states, actions, |actions|);
    RunKeepsInv(states, actions, k);
    RunKeepsInv(states, actions, k + 1);
    RunKeepsInv(states, actions, k + 2);
    var h := states[|actions|].history;
    assert states[k + 1].history == h[..k + 1] && states[k + 2].history == h[..k + 2];
    assert h[k] == states[k + 1].history[k] && h[k + 1] == states[k + 2].history[k + 1];
    assert |FramesOf(states[k + 1], h[k].thread)| > 0;
    OwnerActs(states[k + 1], actions[k + 1], h[k].thread);
  }

  /** Only the thread that has open frames can act. */
  lemma OwnerActs(s: State, a: Action, t: Thread)
    requires Inv(s) && CanAct(s, a) && FramesOf(s, t) != []
    ensures a.thread == t
  {
    assert |FramesOf(s, t)| == if s.lock.owner == Some(t) then s.lock.depth else 0;
  }

  /**
  Exclusive sections are contiguous: whenever a thread has a frame open after the first k events of
  the global history, the next event is its own, so nothing of another thread falls inside.
  */
  lemma ExclusiveIsContiguous(states: seq<State>, actions: seq<Action>, k: nat, t: Thread)
    requires Run(states, actions) && k < |states[|actions|].history|
    requires OpenFrames(states[|actions|].history[..k], t) > 0
    ensures states[|actions|].history[k].thread == t
  {
    RunKeepsInv(states, actions, |actions|);
    RunKeepsInv(states, actions, k);
    RunKeepsInv(states, actions, k + 1);
    var h := states[|actions|].history;
    assert states[k].history == h[..k] && h[k] == h[..k + 1][k];
    OwnerActs(states[k], actions[k], t);
  }

  lemma OwnerHasFrames(s: State, t: Thread)
    requires Inv(s)
    ensures s.lock.owner == Some(t) <==> OpenFrames(s.history, t) > 0
    ensures OpenFrames(s.history, t) == if s.lock.owner == Some(t) then s.lock.depth else 0
  {
    assert |FramesOf(s, t)| == if s.lock.owner == Some(t) then s.lock.depth else 0;
  }

  /**
  The lock is owned by a thread exactly while that thread has open frames; so leaving its outermost
  frame, normally or by an exception, frees the lock, and leaving an inner one does not.
  */
  lemma LockFollowsFrames(states: seq<State>, actions: seq<Action>, k: nat, t: Thread)
    requires Run(states, actions) && k < |states|
    ensures states[k].lock.owner == Some(t) <==> OpenFrames(states[k].history, t) > 0
    ensures OpenFrames(states[k].history, t) == if states[k].lock.owner == Some(t) then states[k].lock.depth else 0
  {
    RunKeepsInv(states, actions, k);
    OwnerHasFrames(states[k], t);
  }

  lemma LeavingFreesAtTheOutermost(states: seq<State>, actions: seq<Action>, k: nat)
    requires Run(states, actions) && k < |actions| && actions[k].Leave?
    ensures states[k + 1].lock.owner.None? <==> OpenFrames(states[k].history, actions[k].thread) == 1
  {
    RunKeepsInv(states, actions, k);
    var s, t := states[k], actions[k].thread;
    assert |FramesOf(s, t)| == if s.lock.owner == Some(t) then s.lock.depth else 0;
  }

  // ----- The wrapper -----

  class RLock {
    var owner: Option<Thread>
    var depth: nat

    constructor ()
      ensures owner == None && depth == 0
    {
      owner, depth := None, 0;
    }

    /** Acquisition as it completes: a thread that has to wait does nothing until the lock is free. */
    method AcquireBy(t: Thread)
      requires CanAcquire(Lock(owner, depth), t)
      modifies this
      ensures Lock(owner, depth) == Acquire(old(Lock(owner, depth)), t)
    {
      if owner == Some(t) {
        depth := depth + 1;
      } else {
        owner, depth := Some(t), 1;
      }
    }

    method ReleaseBy(t: Thread)
      requires CanRelease(Lock(owner, depth), t)
      modifies this
      ensures Lock(owner, depth) == Release(old(Lock(owner, depth)), t)
    {
      depth := depth - 1;
      if depth == 0 {
        owner := None;
      }
    }
  }

  class SynchronizedTransport {
    const lock: RLock
    ghost var frames: map<Thread, seq<Frame>>
    ghost var history: seq<Event>

    ghost function Abs(): State
      reads this, lock
    {
      State(Lock(lock.owner, lock.depth), frames, history)
    }

    constructor ()
      ensures Initial(Abs()) && fresh(lock)
    {
      lock := new RLock();
      frames, history := map[], [];
    }

    /** Enter a wrapped call or an exclusive section. */
    method EnterFrame(t: Thread, frame: Frame)
      requires CanAct(Abs(), Enter(t, frame))
      modifies this, lock
      ensures Abs() == Next(old(Abs()), Enter(t, frame))
    {
      frames := frames[t := FramesOf(Abs(), t) + [frame]];
      history := history + [Entered(t, frame)];
      lock.AcquireBy(t);
    }

    /** Leave the innermost frame, whether its body returned or raised. */
    method LeaveFrame(t: Thread, raised: bool)
      requires CanAct(Abs(), Leave(t, raised))
      modifies this, lock
      ensures Abs() == Next(old(Abs()), Leave(t, raised))
    {
      ghost var open := FramesOf(Abs(), t);
      frames := frames[t := open[..|open| - 1]];
      history := history + [Left(t, open[|open| - 1], raised)];
      lock.ReleaseBy(t);
    }

    /** connect, close or execute: the wrapped call inside the lock, which is as before afterwards. */
    method Wrapped(t: Thread, call: Call) returns (raised: bool)
      requires Inv(Abs()) && CanAct(Abs(), Enter(t, InCall(call)))
      modifies this, lock
      ensures Inv(Abs()) && Abs().lock == old(Abs().lock)
      ensures FramesOf(Abs(), t) == old(FramesOf(Abs(), t))
      ensures history == old(history) + [Entered(t, InCall(call)), Left(t, InCall(call), raised)]
    {
      ghost var before := Abs();
      NextKeepsInv(before, Enter(t, InCall(call)));
      assert |FramesOf(before, t)| == if before.lock.owner == Some(t) then before.lock.depth else 0;
      EnterFrame(t, InCall(call));
      raised := *;
      ghost var inside := Abs();
      assert FramesOf(inside, t) == FramesOf(before, t) + [InCall(call)];
      NextKeepsInv(inside, Leave(t, raised));
      LeaveFrame(t, raised);
    }
  }
}

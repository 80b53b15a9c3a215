/**
  The part of the .NET `System.Threading.Monitor` that the singleton lifetime
  manager relies on, abstracted as a value: a monitor is either free or owned
  by one thread at some positive recursion depth (a .NET monitor is
  reentrant). Blocking is not modelled as a transition: `Enter` is only
  defined when it would return at once, which is what `CanEnter` says.
 */
module Monitor {

  type ThreadId = nat

  /** Recursion depth of an owned monitor. */
  type Depth = n: nat | 1 <= n witness 1

  datatype Lock = Free | Owned(owner: ThreadId, depth: Depth)

  /** How many times thread `t` has entered `l` without exiting it yet. */
  function Held(l: Lock, t: ThreadId): nat {
    match l
    case Free => 0
    case Owned(o, d) => if o == t then d else 0
  }

  /** `Monitor.IsEntered`: does the calling thread own the monitor? */
  predicate IsEntered(l: Lock, t: ThreadId) {
    l.Owned? && l.owner == t
  }

  /** `Monitor.Enter` by `t` returns without blocking: the monitor is free or already `t`'s. */
  predicate CanEnter(l: Lock, t: ThreadId) {
    l.Free? || l.owner == t
  }

  /** No thread other than `t` gained or lost a level between `l` and `l'`. */
  ghost predicate OthersUnchanged(l: Lock, l': Lock, t: ThreadId) {
    forall u :: u != t ==> Held(l', u) == Held(l, u)
  }

  /** `Monitor.Enter`, in the case where it does not block. */
  function Enter(l: Lock, t: ThreadId): (r: Lock)
    requires CanEnter(l, t)
    ensures IsEntered(r, t)
    ensures Held(r, t) == Held(l, t) + 1
    ensures OthersUnchanged(l, r, t)
  {
    match l
    case Free => Owned(t, 1)
    case Owned(o, d) => Owned(o, d + 1)
  }

  /**
    `Monitor.Exit`. The runtime throws `SynchronizationLockException` when the
    caller does not own the monitor; here that case is excluded by the
    precondition, and every caller in the model establishes it.
   */
  function Exit(l: Lock, t: ThreadId): (r: Lock)
    requires IsEntered(l, t)
    ensures Held(r, t) == Held(l, t) - 1
    ensures OthersUnchanged(l, r, t)
    ensures r.Free? <==> Held(l, t) == 1
  {
    if l.depth == 1 then Free else Owned(t, l.depth - 1)
  }

  /**
    Owning the monitor is the same as having entered it at least once. This
    follows from the shape of `Lock` alone and says nothing about a transition.
   */
  lemma IsEnteredIffHeld(l: Lock, t: ThreadId)
    ensures IsEntered(l, t) <==> Held(l, t) > 0
  {
  }

  /**
    At most one thread holds a level of the monitor. This follows from `Lock`
    having a single owner; the mutual-exclusion results about the manager's
    transitions are `Protocol.MutualExclusionAfterMiss` and
    `Protocol.OthersCannotTouchHeldLock`.
   */
  lemma AtMostOneHolder(l: Lock, t: ThreadId, u: ThreadId)
    requires Held(l, t) > 0 && Held(l, u) > 0
    ensures t == u
  {
  }

  /** `Enter` blocks exactly when some other thread holds the monitor. */
  lemma BlockedIffOtherHolds(l: Lock, t: ThreadId)
    ensures !CanEnter(l, t) <==> exists u :: u != t && Held(l, u) > 0
  {
    if !CanEnter(l, t) {
      assert Held(l, l.owner) > 0;
    }
  }

  /** The per-thread counts determine the monitor completely. */
  lemma HeldDeterminesLock(l: Lock, l': Lock)
    requires forall t :: Held(l, t) == Held(l', t)
    ensures l == l'
  {
    if l.Owned? {
      assert Held(l', l.owner) == Held(l, l.owner);
    }
    if l'.Owned? {
      assert Held(l, l'.owner) == Held(l', l'.owner);
    }
  }

  /** One `Exit` undoes one `Enter`. */
  lemma ExitUndoesEnter(l: Lock, t: ThreadId)
    requires CanEnter(l, t)
    ensures Exit(Enter(l, t), t) == l
  {
  }

  /** One `Enter` undoes one `Exit`. */
  lemma EnterUndoesExit(l: Lock, t: ThreadId)
    requires IsEntered(l, t)
    ensures CanEnter(Exit(l, t), t)
    ensures Enter(Exit(l, t), t) == l
  {
  }
}

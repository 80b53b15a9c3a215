/**
  The singleton lifetime policy (`ContainerControlledLifetimeManager`): a
  cached value plus a private monitor, driven by a double-checked-locking
  protocol. Each public method is one atomic transition over the manager's
  state, taking the calling thread as a parameter.
 */
module ContainerControlled {
  import opened Wrappers
  import opened Monitor

  /** A managed object; `disposable` says whether its runtime type implements `IDisposable`. */
  datatype Obj = Obj(id: nat, disposable: bool)

  /**
    The manager's state: the cached `value` (`None` is `null`), its private
    monitor `lock`, and `disposed`, a log of the objects whose `Dispose` the
    manager has called, oldest first.
   */
  datatype Manager = Manager(value: Option<Obj>, lock: Lock, disposed: seq<Obj>)

  /** The result of `GetValue`: the manager after the call and the reference returned. */
  datatype Read = Read(after: Manager, result: Option<Obj>)

  /** Every logged disposal was of an object that implements `IDisposable`. */
  ghost predicate Valid(m: Manager) {
    forall i :: 0 <= i < |m.disposed| ==> m.disposed[i].disposable
  }

  /** `m'` differs from `m` at most in the lock. */
  ghost predicate OnlyLockChanged(m: Manager, m': Manager) {
    m'.value == m.value && m'.disposed == m.disposed
  }

  /**
    The effect of disposing the manager: the value is cleared, the monitor is
    untouched, and the old value is logged exactly when it was present and
    disposable.
   */
  ghost predicate Cleared(m: Manager, r: Manager) {
    && r.value.None?
    && r.lock == m.lock
    && r.disposed == m.disposed + (if m.value.Some? && m.value.value.disposable then [m.value.value] else [])
  }

  /** A freshly constructed manager: no value, an unowned monitor, nothing disposed. */
  function New(): (m: Manager)
    ensures m.value.None? && m.disposed == []
    ensures forall t :: Held(m.lock, t) == 0
    ensures Valid(m)
  {
    Manager(None, Free, [])
  }

  /**
    Releases one level of the monitor if and only if the calling thread holds
    it; otherwise nothing happens. The `catch` of `SynchronizationLockException`
    in the source cannot be reached here, because `Exit` is only called after
    `IsEntered` has been checked.
   */
  function TryExit(m: Manager, t: ThreadId): (r: Manager)
    ensures OnlyLockChanged(m, r)
    ensures Held(r.lock, t) == if Held(m.lock, t) > 0 then Held(m.lock, t) - 1 else 0
    ensures OthersUnchanged(m.lock, r.lock, t)
    ensures !IsEntered(m.lock, t) ==> r == m
  {
    if IsEntered(m.lock, t) then m.(lock := Exit(m.lock, t)) else m
  }

  /**
    The slow path of `GetValue`: enter the monitor, re-read the value, and
    leave the monitor again only if the value is present. On a miss the
    caller keeps the monitor, one level deeper than before.
   */
  function SynchronizedGetValue(m: Manager, t: ThreadId): (r: Read)
    requires CanEnter(m.lock, t)
    ensures r.result == m.value
    ensures OnlyLockChanged(m, r.after)
    ensures m.value.None? ==> IsEntered(r.after.lock, t) && Held(r.after.lock, t) == Held(m.lock, t) + 1
    ensures m.value.Some? ==> r.after.lock == m.lock
    ensures OthersUnchanged(m.lock, r.after.lock, t)
  {
    var entered := Enter(m.lock, t);
    var result := m.value;
    if result.Some? then
      ExitUndoesEnter(m.lock, t);
      Read(m.(lock := Exit(entered, t)), result)
    else
      Read(m.(lock := entered), result)
  }

  /**
    `GetValue`: a present value is returned without touching the monitor;
    otherwise the synchronized path runs. Only that path can block, so only
    a miss needs the monitor to be free or already the caller's.
   */
  function GetValue(m: Manager, t: ThreadId): (r: Read)
    requires m.value.Some? || CanEnter(m.lock, t)
    ensures r.result == m.value
    ensures m.value.Some? ==> r.after == m
    ensures OnlyLockChanged(m, r.after)
    ensures m.value.None? ==> IsEntered(r.after.lock, t) && Held(r.after.lock, t) == Held(m.lock, t) + 1
    ensures OthersUnchanged(m.lock, r.after.lock, t)
  {
    var current := m.value;
    if current.Some? then Read(m, current) else SynchronizedGetValue(m, t)
  }

  /**
    `SetValue`: publish `newValue` (which may be `null`), then release one
    level of the monitor if the caller holds it. Safe to call without the lock.
   */
  function SetValue(m: Manager, t: ThreadId, newValue: Option<Obj>): (r: Manager)
    ensures r.value == newValue
    ensures r.disposed == m.disposed
    ensures Held(r.lock, t) == if Held(m.lock, t) > 0 then Held(m.lock, t) - 1 else 0
    ensures OthersUnchanged(m.lock, r.lock, t)
    ensures !IsEntered(m.lock, t) ==> r.lock == m.lock
  {
    TryExit(m.(value := newValue), t)
  }

  /**
    `Recover`: called when construction failed after a miss; releases one
    level of the monitor if the caller holds it and changes nothing else.
   */
  function Recover(m: Manager, t: ThreadId): (r: Manager)
    ensures OnlyLockChanged(m, r)
    ensures Held(r.lock, t) == if Held(m.lock, t) > 0 then Held(m.lock, t) - 1 else 0
    ensures OthersUnchanged(m.lock, r.lock, t)
    ensures !IsEntered(m.lock, t) ==> r == m
  {
    TryExit(m, t)
  }

  /**
    `Dispose(bool disposing)`: if a value is cached, dispose it when it is
    disposable and clear the cache. The flag is not consulted, and the
    monitor is not touched.
   */
  function DisposeManaged(m: Manager, disposing: bool): (r: Manager)
    ensures Cleared(m, r)
    ensures Valid(m) ==> Valid(r)
  {
    match m.value
    case None => m
    case Some(v) =>
      var logged := if v.disposable then m.disposed + [v] else m.disposed;
      m.(value := None, disposed := logged)
  }

  /** `Dispose()`: the same as `Dispose(true)`. */
  function Dispose(m: Manager): (r: Manager)
    ensures Cleared(m, r)
    ensures Valid(m) ==> Valid(r)
  {
    DisposeManaged(m, true)
  }

  /** `RemoveValue`: the same as `Dispose()`. */
  function RemoveValue(m: Manager): (r: Manager)
    ensures Cleared(m, r)
    ensures Valid(m) ==> Valid(r)
  {
    Dispose(m)
  }
}

# Singleton lifetime manager of QuickInject, modelled in Dafny

QuickInject is a dependency-injection container. For each registered type a
*lifetime manager* decides whether a constructed instance is shared. The
`ContainerControlledLifetimeManager` is the singleton policy. It caches one
value behind a private monitor and uses a double-checked-locking protocol:

- `GetValue` returns a cached value without locking.
- On a miss it enters the monitor and re-reads the value.
  - If the value is still `null`, it returns `null` and the caller keeps the monitor while it builds the instance.
  - If the value is present, it leaves the monitor and returns the value.
- `SetValue` publishes the built instance and releases one level of the monitor.
- `Recover` releases one level after a failed construction, so the type can be resolved again.
- `RemoveValue` and `Dispose` clear the value and dispose it if it is `IDisposable`.

The model is a small sequential state machine. The state is an immutable
`Manager(value, lock, disposed)`:

- `value` is an `Option<Obj>`, where `None` is `null`.
- `lock` is the reentrant monitor, `Free` or `Owned(owner, depth)`.
- `disposed` logs the objects the manager has disposed, in order.

Each method is a pure transition function that takes the calling thread. A
thread would block in `Monitor.Enter` when another thread owns the monitor.
The model does not run that case: `Enter` requires the monitor to be free or
already owned by the caller. Threads interleave only between whole method
calls. `Protocol.Run` executes a sequence of such calls and yields `None` at
the first call that would block.

Files:

- `wrappers.dfy`: `Option`.
- `monitor.dfy`: the reentrant monitor and its per-thread hold count `Held`.
- `container_controlled.dfy`: the manager's transitions.
- `protocol.dfy`: call sequences and lemmas over them.

Two behaviours of the code are worth stating plainly:

- `SetValue` stores whatever it is given, even over a present value or with
  `null` (line 28); nothing prevents a cached singleton from being replaced
  (`ContainerControlled.SetValue`).
- `TryExit` releases one level of a reentrant monitor (lines 62-66), so a
  thread that entered twice still holds one level after one `Recover`.

## Model

| member | source | states |
|---|---|---|
| Monitor.Enter | src/LifetimeManagers/ContainerControlledLifetimeManager.cs:78 | Entering a free monitor, or one already owned by the caller, makes the caller the owner with one more level; no other thread's count changes |
| Monitor.Exit | src/LifetimeManagers/ContainerControlledLifetimeManager.cs:83 | Exiting an owned monitor removes one of the caller's levels, frees the monitor exactly when that was the last level, and leaves every other thread's count alone |
| Monitor.IsEnteredIffHeld | src/LifetimeManagers/ContainerControlledLifetimeManager.cs:62 | `IsEntered` holds exactly when the caller has a positive hold count; a fact about the shape of `Lock`, not about any transition |
| Monitor.AtMostOneHolder | src/LifetimeManagers/ContainerControlledLifetimeManager.cs:12 | The private monitor is held by at most one thread at a time; this follows from `Lock` having one owner, while the transition-level results are `Protocol.MutualExclusionAfterMiss` and `Protocol.OthersCannotTouchHeldLock` |
| Monitor.BlockedIffOtherHolds | src/LifetimeManagers/ContainerControlledLifetimeManager.cs:78 | `Enter` would block exactly when some other thread holds the monitor |
| Monitor.ExitUndoesEnter | src/LifetimeManagers/ContainerControlledLifetimeManager.cs:78-83 | An `Exit` right after an `Enter` restores the monitor exactly |
| Monitor.EnterUndoesExit | src/LifetimeManagers/ContainerControlledLifetimeManager.cs:62-66 | After an `Exit` the caller can re-enter without blocking, and doing so restores the monitor exactly |
| ContainerControlled.New | src/LifetimeManagers/ContainerControlledLifetimeManager.cs:12-13 | A new manager has no value, a monitor no thread holds, and an empty disposal log |
| ContainerControlled.TryExit | src/LifetimeManagers/ContainerControlledLifetimeManager.cs:59-73 | A caller that holds the monitor loses exactly one level. A caller that does not hold it sees no change and no failure. The value, the log and other threads' counts never change |
| ContainerControlled.SynchronizedGetValue | src/LifetimeManagers/ContainerControlledLifetimeManager.cs:76-87 | Returns the value found under the monitor. If it is null, the caller ends owning the monitor with exactly one more level. If it is present, the monitor is exactly as before |
| ContainerControlled.GetValue | src/LifetimeManagers/ContainerControlledLifetimeManager.cs:15-24 | A present value is returned with the whole manager unchanged, and the monitor need not be free. A miss returns null and leaves the caller owning the monitor with exactly one more level |
| ContainerControlled.SetValue | src/LifetimeManagers/ContainerControlledLifetimeManager.cs:26-30 | The new value, possibly null, is stored. The caller loses one level if it held the monitor, otherwise the monitor is unchanged. The log and other threads' counts are untouched |
| ContainerControlled.Recover | src/LifetimeManagers/ContainerControlledLifetimeManager.cs:37-40 | Only the monitor changes: the caller loses one level if it held it. A caller that does not hold it leaves the manager identical |
| ContainerControlled.DisposeManaged | src/LifetimeManagers/ContainerControlledLifetimeManager.cs:48-57 | The value becomes null and the monitor is untouched. The log grows by the old value exactly when it was present and disposable, so only disposable objects are ever logged |
| ContainerControlled.Dispose | src/LifetimeManagers/ContainerControlledLifetimeManager.cs:42-46 | Same effect as `Dispose(true)`: clears the value, logs it if disposable, leaves the monitor alone |
| ContainerControlled.RemoveValue | src/LifetimeManagers/ContainerControlledLifetimeManager.cs:32-35 | Same effect as `Dispose()` |
| Protocol.Step | src/LifetimeManagers/ContainerControlledLifetimeManager.cs:15-24 | A call would block exactly when it is a `GetValue` that misses while another thread owns the monitor. `SetValue`, `Recover`, `RemoveValue` and `Dispose` never block |
| Protocol.MissThenSetValue | src/LifetimeManagers/ContainerControlledLifetimeManager.cs:15-30 | A miss followed by `SetValue(v)` from the same thread leaves the monitor exactly as before the miss and `v` stored, so a thread that did not own the monitor before does not own it after |
| Protocol.MissThenRecover | src/LifetimeManagers/ContainerControlledLifetimeManager.cs:15-40 | A miss followed by `Recover` from the same thread restores the whole manager. A retrying `GetValue` then misses again and ends exactly where the first miss did |
| Protocol.RecoverIdempotent | src/LifetimeManagers/ContainerControlledLifetimeManager.cs:37-40 | Any number of `Recover` calls from a thread that does not own the monitor change nothing |
| Protocol.MutualExclusionAfterMiss | src/LifetimeManagers/ContainerControlledLifetimeManager.cs:59-87 | While one thread holds the monitor after a miss, another thread's `GetValue` would block. Another thread's `SetValue` or `Recover` does not release the holder's monitor |
| Protocol.PublishedToAll | src/LifetimeManagers/ContainerControlledLifetimeManager.cs:15-30 | After `SetValue` stores a non-null object, every thread's `GetValue` returns it and changes nothing, whoever holds the monitor |
| Protocol.RacingMiss | src/LifetimeManagers/ContainerControlledLifetimeManager.cs:76-87 | Thread `t` reads null without the lock while `u` is building. `u` then stores `o`, and `t`'s re-read under the monitor returns `o`. `t`'s hold count is unchanged and the monitor ends free |
| Protocol.DisposeTwice | src/LifetimeManagers/ContainerControlledLifetimeManager.cs:42-57 | A second `Dispose` disposes nothing more and changes nothing |
| Protocol.StepPreservesValid | src/LifetimeManagers/ContainerControlledLifetimeManager.cs:48-57 | No single call logs a non-disposable object or removes anything from the disposal log |
| Protocol.RunPreservesValid | src/LifetimeManagers/ContainerControlledLifetimeManager.cs:48-57 | A whole call sequence logs only disposable objects and only appends to the disposal log |
| Protocol.OthersCannotTouchHeldLock | src/LifetimeManagers/ContainerControlledLifetimeManager.cs:59-73 | While `t` holds the monitor, any sequence of calls made by other threads or by `RemoveValue`/`Dispose` leaves the monitor exactly as it was |
| Protocol.CachedReadsAreLockFree | src/LifetimeManagers/ContainerControlledLifetimeManager.cs:15-21 | Once a value is cached, any sequence of `GetValue` calls by any threads never blocks and leaves the manager unchanged |
| Protocol.DisposedAtMostOnce | src/LifetimeManagers/ContainerControlledLifetimeManager.cs:48-57 | If `o` is not stored again, a call sequence disposes `o` at most once, and only if `o` was cached at the start |

## Left out

- Memory visibility of `Volatile.Read`, `Volatile.Write` and the plain field accesses (lines 17, 28, 50, 52, 55, 79): each method is one atomic step, and the slow path's re-read is shown as a separate step only in `Protocol.RacingMiss`.
- Protocol.DisposedAtMostOnce: relies on each `Dispose` being one atomic step. `Dispose` takes no lock, so two `Dispose` calls running at the same time can both pass the check at line 50 and dispose the same object twice.
- Blocking, fairness and scheduling inside `Monitor.Enter` (line 78): a call that would block is a precondition of `GetValue`, and `Protocol.Run` yields `None` for it. The model does not say which waiting thread runs next.
- The `catch (SynchronizationLockException)` in `TryExit` (lines 68-71): `Monitor.Exit` is only called after `IsEntered` has succeeded, so the exception cannot occur in the model.
- What an object's own `Dispose` does, and `GC.SuppressFinalize` (lines 45, 53): disposal is recorded only as an entry in the `disposed` log.
- ContainerControlled.DisposeManaged: assumes the object's `Dispose` at line 53 returns normally. If it throws, line 55 never runs and the value stays cached. A later `Dispose` or `RemoveValue` then disposes the same object again, so `Protocol.DisposeTwice` and `Protocol.DisposedAtMostOnce` hold only when line 53 does not throw.
- The `disposing` argument of `Dispose(bool)`: the source never reads it, and the model ignores it too.
- Subclasses overriding the virtual `Dispose(bool)`: the model covers this class's own body only.
- The base class `ContextInvariantLifetimeManager`, the `IRequiresRecovery` interface, the container, the registration table and the resolution engine that call this class are not part of this model.
- The unit tests (UnitTests/UnitTest.cs) test the container with other lifetime managers, so they are not part of this model.

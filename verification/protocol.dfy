/**
  Short call sequences against one singleton lifetime manager, interleaved at
  method granularity: the balanced miss/SetValue and miss/Recover protocols,
  mutual exclusion while a miss is outstanding, publication of a cached
  value to every thread, and disposal at most once.
 */
module Protocol {
  import opened Wrappers
  import opened Monitor
  import opened ContainerControlled

  /** One call on the manager; lock-related calls name the calling thread. */
  datatype Call =
    | GetValueCall(caller: ThreadId)
    | SetValueCall(caller: ThreadId, newValue: Option<Obj>)
    | RecoverCall(caller: ThreadId)
    | RemoveValueCall
    | DisposeCall

  /** Is `c` a call made by thread `t`? */
  predicate CalledBy(c: Call, t: ThreadId) {
    (c.GetValueCall? || c.SetValueCall? || c.RecoverCall?) && c.caller == t
  }

  /** Does `c` store `o` in the manager? */
  predicate Stores(c: Call, o: Obj) {
    c.SetValueCall? && c.newValue == Some(o)
  }

  /**
    Performs one call, or yields `None` when the call would block in
    `Monitor.Enter` (a miss while another thread owns the monitor).
   */
  function Step(m: Manager, c: Call): (r: Option<Manager>)
    ensures r.None? <==> c.GetValueCall? && m.value.None? && !CanEnter(m.lock, c.caller)
  {
    match c
    case GetValueCall(t) =>
      if m.value.Some? || CanEnter(m.lock, t) then Some(GetValue(m, t).after) else None
    case SetValueCall(t, v) => Some(SetValue(m, t, v))
    case RecoverCall(t) => Some(Recover(m, t))
    case RemoveValueCall => Some(RemoveValue(m))
    case DisposeCall => Some(Dispose(m))
  }

  /** Performs the calls in order; `None` if one of them would block. */
  function Run(m: Manager, cs: seq<Call>): Option<Manager>
    decreases |cs|
  {
    if cs == [] then Some(m)
    else
      match Step(m, cs[0])
      case None => None
      case Some(m1) => Run(m1, cs[1..])
  }

  /**
    A miss followed by `SetValue(v)` from the same thread leaves the monitor
    exactly as it was before the miss and `v` cached; in particular a thread
    that did not own the monitor before does not own it afterwards.
   */
  lemma MissThenSetValue(m: Manager, t: ThreadId, v: Option<Obj>)
    requires m.value.None? && CanEnter(m.lock, t)
    ensures Run(m, [GetValueCall(t), SetValueCall(t, v)]) == Some(m.(value := v))
  {
    var m1 := GetValue(m, t).after;
    assert Run(m1, [SetValueCall(t, v)]) == Some(SetValue(m1, t, v));
    HeldDeterminesLock(SetValue(m1, t, v).lock, m.lock);
  }

  /**
    A miss followed by `Recover` from the same thread restores the manager
    exactly: the monitor is released and the value is still empty, so a
    retrying `GetValue` misses again and takes the monitor as the first did.
   */
  lemma MissThenRecover(m: Manager, t: ThreadId)
    requires m.value.None? && CanEnter(m.lock, t)
    ensures Run(m, [GetValueCall(t), RecoverCall(t)]) == Some(m)
    ensures Run(m, [GetValueCall(t), RecoverCall(t), GetValueCall(t)]) == Some(GetValue(m, t).after)
  {
    var m1 := GetValue(m, t).after;
    assert Run(m1, [RecoverCall(t)]) == Some(Recover(m1, t));
    HeldDeterminesLock(Recover(m1, t).lock, m.lock);
    var cs := [GetValueCall(t), RecoverCall(t), GetValueCall(t)];
    assert cs[1..] == [RecoverCall(t), GetValueCall(t)];
    assert Run(m1, [RecoverCall(t), GetValueCall(t)]) == Run(m, [GetValueCall(t)]);
  }

  /** Any number of `Recover` calls from a thread that does not own the monitor change nothing. */
  lemma {:induction false} RecoverIdempotent(m: Manager, t: ThreadId, n: nat)
    requires !IsEntered(m.lock, t)
    ensures Run(m, seq(n, _ => RecoverCall(t))) == Some(m)
  {
    if n > 0 {
      var cs := seq(n, _ => RecoverCall(t));
      assert cs[1..] == seq(n - 1, _ => RecoverCall(t));
      RecoverIdempotent(m, t, n - 1);
    }
  }

  /**
    While `t` owns the monitor after a miss, no other thread can take the
    synchronized path, and no other thread's `SetValue` or `Recover`
    releases `t`'s hold.
   */
  lemma MutualExclusionAfterMiss(m: Manager, t: ThreadId, u: ThreadId, v: Option<Obj>)
    requires m.value.None? && CanEnter(m.lock, t) && u != t
    ensures Step(GetValue(m, t).after, GetValueCall(u)).None?
    ensures SetValue(GetValue(m, t).after, u, v).lock == GetValue(m, t).after.lock
    ensures Recover(GetValue(m, t).after, u) == GetValue(m, t).after
  {
  }

  /**
    Once `SetValue` has stored a non-null `o`, every thread's `GetValue`
    returns `o` without touching the monitor, whoever holds it.
   */
  lemma PublishedToAll(m: Manager, t: ThreadId, o: Obj, u: ThreadId)
    ensures GetValue(SetValue(m, t, Some(o)), u) == Read(SetValue(m, t, Some(o)), Some(o))
  {
  }

  /**
    A race on an empty manager: `u` misses and owns the monitor, `t` reads
    null on the lock-free path, `u` stores `o`, and then `t`'s synchronized
    re-read finds `o`. `t` gets `o`, its hold count is unchanged, and the
    monitor ends free.
   */
  lemma RacingMiss(m: Manager, t: ThreadId, u: ThreadId, o: Obj)
    requires m.value.None? && m.lock.Free? && t != u
    ensures var m1 := GetValue(m, u).after;
            && m1.value.None?
            && !CanEnter(m1.lock, t)
            && var m2 := SetValue(m1, u, Some(o));
               && CanEnter(m2.lock, t)
               && var r := SynchronizedGetValue(m2, t);
                  && r.result == Some(o)
                  && Held(r.after.lock, t) == Held(m.lock, t)
                  && r.after.lock.Free?
  {
  }

  /** `Dispose` is idempotent: a second call disposes nothing more. */
  lemma DisposeTwice(m: Manager)
    ensures Dispose(Dispose(m)) == Dispose(m)
    ensures Run(m, [DisposeCall, DisposeCall]) == Run(m, [DisposeCall])
  {
    assert Run(Dispose(m), [DisposeCall]) == Some(Dispose(Dispose(m)));
  }

  /** Every call keeps the disposal log well-formed and only appends to it. */
  lemma StepPreservesValid(m: Manager, c: Call)
    requires Valid(m)
    ensures Step(m, c).Some? ==> Valid(Step(m, c).value)
    ensures Step(m, c).Some? ==> m.disposed <= Step(m, c).value.disposed
  {
  }

  /** A whole run keeps the disposal log well-formed and only appends to it. */
  lemma {:induction false} RunPreservesValid(m: Manager, cs: seq<Call>)
    requires Valid(m)
    ensures Run(m, cs).Some? ==> Valid(Run(m, cs).value)
    ensures Run(m, cs).Some? ==> m.disposed <= Run(m, cs).value.disposed
    decreases |cs|
  {
    if cs != [] {
      StepPreservesValid(m, cs[0]);
      if Step(m, cs[0]).Some? {
        RunPreservesValid(Step(m, cs[0]).value, cs[1..]);
      }
    }
  }

  /**
    While `t` owns the monitor, any run of other threads' calls (and of
    `RemoveValue`/`Dispose`, which never touch it) leaves the monitor
    exactly as it was: nobody else acquires it or releases `t`'s levels.
   */
  lemma {:induction false} OthersCannotTouchHeldLock(m: Manager, t: ThreadId, cs: seq<Call>)
    requires IsEntered(m.lock, t)
    requires forall i :: 0 <= i < |cs| ==> !CalledBy(cs[i], t)
    ensures Run(m, cs).Some? ==> Run(m, cs).value.lock == m.lock
    decreases |cs|
  {
    if cs != [] && Step(m, cs[0]).Some? {
      var m1 := Step(m, cs[0]).value;
      assert m1.lock == m.lock;
      OthersCannotTouchHeldLock(m1, t, cs[1..]);
    }
  }

  /**
    Once a non-null value is cached, any run of `GetValue` calls, by any
    threads, never blocks and leaves the manager exactly as it was.
   */
  lemma {:induction false} CachedReadsAreLockFree(m: Manager, cs: seq<Call>)
    requires m.value.Some?
    requires forall i :: 0 <= i < |cs| ==> cs[i].GetValueCall?
    ensures Run(m, cs) == Some(m)
    decreases |cs|
  {
    if cs != [] {
      assert Step(m, cs[0]) == Some(m);
      CachedReadsAreLockFree(m, cs[1..]);
    }
  }

  /** How many times `o` appears in the disposal log. */
  function DisposeCount(m: Manager, o: Obj): nat {
    multiset(m.disposed)[o]
  }

  /**
    Dispose happens at most once per stored object: unless `o` is stored
    again, a run adds `o` to the disposal log at most once, and only if `o`
    was the cached value at the start.
   */
  lemma {:induction false} DisposedAtMostOnce(m: Manager, o: Obj, cs: seq<Call>)
    requires forall i :: 0 <= i < |cs| ==> !Stores(cs[i], o)
    ensures Run(m, cs).Some? ==>
              DisposeCount(Run(m, cs).value, o) <= DisposeCount(m, o) + (if m.value == Some(o) then 1 else 0)
    decreases |cs|
  {
    if cs != [] && Step(m, cs[0]).Some? {
      var m1 := Step(m, cs[0]).value;
      assert m1.value == Some(o) ==> m.value == Some(o) && DisposeCount(m1, o) == DisposeCount(m, o);
      assert DisposeCount(m1, o) <= DisposeCount(m, o) + (if m.value == Some(o) then 1 else 0);
      DisposedAtMostOnce(m1, o, cs[1..]);
    }
  }
}

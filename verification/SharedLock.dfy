/** The readers-writer monitor of the buffer cache (pintos/src/filesys/cache.c) over the Mesa-style
    condition variable of pintos/src/threads/synch.c, under every interleaving of any set of
    threads. */
module SharedLock {
  import opened Basics

  type Tid = nat

  datatype Mode = Shared | Exclusive

  /** Where a thread stands in acquire_shared / acquire_exclusive, in its use of the buffer, or in
      release_shared / release_exclusive. */
  datatype Pc =
    | Out                               // not using the lock
    | Want(m: Mode)                     // about to take the mutex in acquire
    | Test(m: Mode, woken: bool)        // has the mutex, at the test of the while loop
    | Queued(m: Mode)                   // in cond_wait: on the waiters list, still has the mutex
    | Asleep(m: Mode)                   // in cond_wait: sleeping on its own semaphore
    | Woken(m: Mode)                    // its semaphore was upped, about to take the mutex again
    | Enter(m: Mode)                    // has the mutex, has updated i
    | In(m: Mode)                       // inside
    | WantOut(m: Mode)                  // about to take the mutex in release
    | Leave(m: Mode)                    // has the mutex, before updating i
    | Signal(m: Mode)                   // has the mutex, has updated i, may have to signal
    | Done(m: Mode)                     // has the mutex, about to release it

  datatype State = State(i: int, owner: Option<Tid>, pc: map<Tid, Pc>)

  datatype Step =
    | Begin(t: Tid, m: Mode)
    | TakeMutex(t: Tid)
    | Check(t: Tid)
    | Proceed(t: Tid)
    | Update(t: Tid)
    | Wake(t: Tid, u: Tid)
    | NoWake(t: Tid)

  ghost predicate HasMutex(p: Pc) { p.Test? || p.Queued? || p.Enter? || p.Leave? || p.Signal? || p.Done? }

  /** Threads that count in i: from the update in acquire to the update in release. */
  ghost predicate Counts(p: Pc, m: Mode) { (p.Enter? || p.In? || p.WantOut? || p.Leave?) && p.m == m }

  ghost function Holders(pc: map<Tid, Pc>, m: Mode): set<Tid> { set t | t in pc && Counts(pc[t], m) }

  ghost predicate Sleeping(pc: map<Tid, Pc>, t: Tid) { t in pc && pc[t].Asleep? }

  ghost predicate Enabled(s: State, step: Step) {
    step.t in s.pc &&
    var p := s.pc[step.t];
    match step
    case Begin(t, m) => p.Out?
    case TakeMutex(t) => (p.Want? || p.Woken? || p.WantOut?) && s.owner.None?
    case Check(t) => p.Test?
    case Proceed(t) => p.Queued? || p.Enter? || p.In? || p.Done?
    case Update(t) => p.Leave?
    case Wake(t, u) => p.Signal? && MustSignal(s.i, p.m) && Sleeping(s.pc, u)
    case NoWake(t) => p.Signal? && (!MustSignal(s.i, p.m) || forall u :: !Sleeping(s.pc, u))
  }

  /** A reader signals when the count drops to zero, a writer always broadcasts. */
  predicate MustSignal(i: int, m: Mode) { m.Exclusive? || i == 0 }

  /** The condition on which acquire waits. */
  predicate Busy(i: int, m: Mode) { if m.Exclusive? then i != 0 else i < 0 }

  ghost function Do(s: State, step: Step): State
    requires Enabled(s, step)
  {
    var p := s.pc[step.t];
    match step
    case Begin(t, m) => s.(pc := s.pc[t := Want(m)])
    case TakeMutex(t) =>
      State(s.i, Some(t), s.pc[t := if p.WantOut? then Leave(p.m) else Test(p.m, p.Woken?)])
    case Check(t) =>
      if Busy(s.i, p.m) then s.(pc := s.pc[t := Queued(p.m)])
      else s.(i := if p.m.Exclusive? then -1 else s.i + 1, pc := s.pc[t := Enter(p.m)])
    case Proceed(t) =>
      var next := if p.Queued? then Asleep(p.m) else if p.Enter? then In(p.m) else if p.In? then WantOut(p.m) else Out;
      State(s.i, if p.In? then s.owner else None, s.pc[t := next])
    case Update(t) => s.(i := if p.m.Exclusive? then 0 else s.i - 1, pc := s.pc[t := Signal(p.m)])
    case Wake(t, u) =>
      var woken := s.pc[u := Woken(s.pc[u].m)];
      s.(pc := if p.m.Exclusive? then woken else woken[t := Done(p.m)])
    case NoWake(t) => s.(pc := s.pc[t := Done(p.m)])
  }

  ghost predicate Init(s: State) { s.i == 0 && s.owner.None? && forall t :: t in s.pc ==> s.pc[t].Out? }

  ghost predicate IsRun(trace: seq<State>, steps: seq<Step>) {
    && |trace| == |steps| + 1 && Init(trace[0])
    && forall n :: 0 <= n < |steps| ==> Enabled(trace[n], steps[n]) && trace[n + 1] == Do(trace[n], steps[n])
  }

  // ---------------------------------------------------------------- invariant

  ghost predicate MutexInv(s: State) {
    && (s.owner.Some? ==> s.owner.value in s.pc)
    && forall t :: t in s.pc ==> (HasMutex(s.pc[t]) <==> s.owner == Some(t))
  }

  /** i counts the readers, or is -1 for exactly one writer and no reader. */
  ghost predicate CountInv(s: State) {
    if s.i < 0 then s.i == -1 && Holders(s.pc, Shared) == {} && |Holders(s.pc, Exclusive)| == 1
    else Holders(s.pc, Exclusive) == {} && |Holders(s.pc, Shared)| == s.i
  }

  /** A thread that has been signalled, or is being, and has not yet looked at i again. */
  ghost predicate Due(p: Pc) { p.Woken? || (p.Test? && p.woken) || p.Signal? }

  ghost predicate WakeInv(s: State) {
    && (forall t :: t in s.pc && s.pc[t].Queued? ==> s.i != 0)
    && (s.i == 0 && (exists t :: Sleeping(s.pc, t)) ==> exists t :: t in s.pc && Due(s.pc[t]))
  }

  ghost predicate Inv(s: State) { MutexInv(s) && CountInv(s) && WakeInv(s) }

  lemma HoldersUpdate(pc: map<Tid, Pc>, t: Tid, p: Pc, m: Mode)
    requires t in pc
    ensures Holders(pc[t := p], m) == if Counts(p, m) then Holders(pc, m) + {t} else Holders(pc, m) - {t}
  {
  }

  /** A thread that moves without starting or ceasing to count changes no holder set. */
  lemma HoldersSame(pc: map<Tid, Pc>, t: Tid, p: Pc)
    requires t in pc && forall m :: Counts(pc[t], m) <==> Counts(p, m)
    ensures forall m :: Holders(pc[t := p], m) == Holders(pc, m)
  {
    forall m
      ensures Holders(pc[t := p], m) == Holders(pc, m)
    {
      HoldersUpdate(pc, t, p, m);
    }
  }

  lemma EnterCount(s: State, t: Tid)
    requires CountInv(s) && Enabled(s, Check(t)) && !Busy(s.i, s.pc[t].m)
    ensures CountInv(Do(s, Check(t)))
  {
    var m := s.pc[t].m;
    HoldersUpdate(s.pc, t, Enter(m), Shared);
    HoldersUpdate(s.pc, t, Enter(m), Exclusive);
    assert t !in Holders(s.pc, Shared) && t !in Holders(s.pc, Exclusive);
    if m.Exclusive? {
      assert Holders(s.pc, Shared) == {};
    }
  }

  lemma LeaveCount(s: State, t: Tid)
    requires CountInv(s) && Enabled(s, Update(t))
    ensures CountInv(Do(s, Update(t)))
  {
    var m := s.pc[t].m;
    HoldersUpdate(s.pc, t, Signal(m), Shared);
    HoldersUpdate(s.pc, t, Signal(m), Exclusive);
    assert t in Holders(s.pc, m);
    if m.Exclusive? {
      OnlyOne(Holders(s.pc, Exclusive), t);
    }
  }

  lemma OnlyOne(h: set<Tid>, t: Tid)
    requires t in h && |h| == 1
    ensures h == {t}
  {
    assert |h - {t}| == 0;
  }

  lemma WakeCount(s: State, t: Tid, u: Tid)
    requires CountInv(s) && Enabled(s, Wake(t, u))
    ensures CountInv(Do(s, Wake(t, u)))
  {
    var woken := s.pc[u := Woken(s.pc[u].m)];
    HoldersSame(s.pc, u, Woken(s.pc[u].m));
    HoldersSame(woken, t, Done(s.pc[t].m));
  }

  lemma StepCount(s: State, step: Step)
    requires CountInv(s) && Enabled(s, step)
    ensures CountInv(Do(s, step))
  {
    var t := step.t;
    var p := s.pc[t];
    match step
    case Begin(_, m) => HoldersSame(s.pc, t, Want(m));
    case TakeMutex(_) => HoldersSame(s.pc, t, if p.WantOut? then Leave(p.m) else Test(p.m, p.Woken?));
    case Check(_) =>
      if Busy(s.i, p.m) {
        HoldersSame(s.pc, t, Queued(p.m));
      } else {
        EnterCount(s, t);
      }
    case Proceed(_) =>
      HoldersSame(s.pc, t, if p.Queued? then Asleep(p.m) else if p.Enter? then In(p.m)
                           else if p.In? then WantOut(p.m) else Out);
    case Update(_) => LeaveCount(s, t);
    case Wake(_, u) => WakeCount(s, t, u);
    case NoWake(_) => HoldersSame(s.pc, t, Done(p.m));
  }

  lemma StepMutex(s: State, step: Step)
    requires MutexInv(s) && Enabled(s, step)
    ensures MutexInv(Do(s, step))
  {
  }

  lemma StepWake(s: State, step: Step)
    requires Inv(s) && Enabled(s, step)
    ensures WakeInv(Do(s, step))
  {
    var s' := Do(s, step);
    if s'.i == 0 && exists v :: Sleeping(s'.pc, v) {
      var v :| Sleeping(s'.pc, v);
      if step.Update? {
        assert Due(s'.pc[step.t]);
      } else if step.Wake? {
        assert Due(s'.pc[step.u]);
      } else if s.i == 0 {
        assert Sleeping(s.pc, v);
        var w :| w in s.pc && Due(s.pc[w]);
        assert w in s'.pc && Due(s'.pc[w]);
      }
    }
  }

  lemma {:induction false} RunInv(trace: seq<State>, steps: seq<Step>, n: nat)
    requires IsRun(trace, steps) && n < |trace|
    ensures Inv(trace[n])
  {
    if n == 0 {
      assert Holders(trace[0].pc, Shared) == {} && Holders(trace[0].pc, Exclusive) == {};
    } else {
      RunInv(trace, steps, n - 1);
      StepMutex(trace[n - 1], steps[n - 1]);
      StepCount(trace[n - 1], steps[n - 1]);
      StepWake(trace[n - 1], steps[n - 1]);
    }
  }

  // ---------------------------------------------------------------- theorems

  /** In every run i tells exactly who is inside: -1 for one writer alone, else the number of
      readers, and no writer. */
  lemma CountIsExact(trace: seq<State>, steps: seq<Step>, n: nat)
    requires IsRun(trace, steps) && n < |trace|
    ensures var s := trace[n];
            && s.i >= -1
            && (s.i == -1 <==> Holders(s.pc, Exclusive) != {})
            && (s.i == -1 ==> |Holders(s.pc, Exclusive)| == 1 && Holders(s.pc, Shared) == {})
            && (s.i >= 0 ==> |Holders(s.pc, Shared)| == s.i)
  {
    RunInv(trace, steps, n);
  }

  /** A writer inside is alone. */
  lemma WriterIsAlone(trace: seq<State>, steps: seq<Step>, n: nat, t: Tid, u: Tid)
    requires IsRun(trace, steps) && n < |trace| && t in trace[n].pc && u in trace[n].pc && t != u
    requires trace[n].pc[t] == In(Exclusive)
    ensures !trace[n].pc[u].In?
  {
    RunInv(trace, steps, n);
    var s := trace[n];
    assert t in Holders(s.pc, Exclusive);
    OnlyOne(Holders(s.pc, Exclusive), t);
    assert u !in Holders(s.pc, Shared) && u !in Holders(s.pc, Exclusive);
  }

  /** No wake-up is lost: a thread can sleep on a free lock only while another one that has been
      signalled (or is signalling) has yet to run. */
  lemma NoLostWakeup(trace: seq<State>, steps: seq<Step>, n: nat, t: Tid)
    requires IsRun(trace, steps) && n < |trace| && trace[n].i == 0 && Sleeping(trace[n].pc, t)
    ensures exists u :: u in trace[n].pc && Due(trace[n].pc[u])
    ensures trace[n].owner.None? ==> exists u :: u in trace[n].pc && trace[n].pc[u].Woken?
  {
    RunInv(trace, steps, n);
  }

  /** A sleeping thread never leaves the monitor stuck: some other thread inside it can move. */
  lemma NeverStuck(trace: seq<State>, steps: seq<Step>, n: nat, t: Tid)
    requires IsRun(trace, steps) && n < |trace| && Sleeping(trace[n].pc, t)
    ensures exists step :: Enabled(trace[n], step) && !step.Begin?
  {
    RunInv(trace, steps, n);
    var s := trace[n];
    if s.owner.Some? {
      OwnerCanMove(s, s.owner.value);
    } else if s.i == 0 {
      NoLostWakeup(trace, steps, n, t);
      var u :| u in s.pc && s.pc[u].Woken?;
      assert Enabled(s, TakeMutex(u));
    } else {
      var m := if s.i < 0 then Exclusive else Shared;
      assert Holders(s.pc, m) != {};
      var u :| u in Holders(s.pc, m);
      assert Enabled(s, if s.pc[u].In? then Proceed(u) else TakeMutex(u));
    }
  }

  lemma OwnerCanMove(s: State, o: Tid)
    requires o in s.pc && HasMutex(s.pc[o])
    ensures exists step :: Enabled(s, step) && !step.Begin?
  {
    var p := s.pc[o];
    if p.Test? {
      assert Enabled(s, Check(o));
    } else if p.Leave? {
      assert Enabled(s, Update(o));
    } else if p.Signal? {
      if MustSignal(s.i, p.m) && exists u :: Sleeping(s.pc, u) {
        var u :| Sleeping(s.pc, u);
        assert Enabled(s, Wake(o, u));
      } else {
        assert Enabled(s, NoWake(o));
      }
    } else {
      assert Enabled(s, Proceed(o));
    }
  }

  // ---------------------------------------------------------------- who waits, who is woken

  /** The test in acquire decides by who is inside: a reader queues if and only if a writer is, a writer
      if and only if anybody is; otherwise they enter. */
  lemma WaitsIff(trace: seq<State>, steps: seq<Step>, n: nat, t: Tid)
    requires IsRun(trace, steps) && n < |steps| && steps[n] == Check(t)
    ensures var before, m, after := trace[n].pc, trace[n].pc[t].m, trace[n + 1].pc[t];
            && (after == Queued(m) || after == Enter(m))
            && (m.Shared? ==> (after == Queued(Shared) <==> Holders(before, Exclusive) != {}))
            && (m.Exclusive? ==>
                  (after == Queued(Exclusive) <==> Holders(before, Exclusive) != {} || Holders(before, Shared) != {}))
  {
    RunInv(trace, steps, n);
    var s := trace[n];
    assert s.i > 0 ==> Holders(s.pc, Shared) != {};
    assert s.i == 0 ==> Holders(s.pc, Shared) == {};
  }

  /** A reader that leaves wakes one sleeper if it was the last one inside, and nobody otherwise. */
  lemma ReaderWakesOne(trace: seq<State>, steps: seq<Step>, n: nat, t: Tid)
    requires IsRun(trace, steps) && n < |steps| && steps[n].t == t && trace[n].pc[t] == Signal(Shared)
    ensures var pc, after := trace[n].pc, trace[n + 1].pc;
            && after[t] == Done(Shared)
            && (if Holders(pc, Shared) == {} && Holders(pc, Exclusive) == {} && exists u :: Sleeping(pc, u)
                then exists u :: Sleeping(pc, u) && after == pc[t := Done(Shared)][u := Woken(pc[u].m)]
                else after == pc[t := Done(Shared)])
  {
    RunInv(trace, steps, n);
    SignalIsFree(trace, steps, n, t);
    var pc, after := trace[n].pc, trace[n + 1].pc;
    assert trace[n].i > 0 ==> Holders(pc, Shared) != {};
    assert trace[n].i == 0 ==> Holders(pc, Shared) == {};
    if steps[n].Wake? {
      var u := steps[n].u;
      assert Sleeping(pc, u) && after == pc[t := Done(Shared)][u := Woken(pc[u].m)];
    }
  }

  /** A thread that is about to signal has given the lock up, and no writer has come in since. */
  lemma {:induction false} SignalIsFree(trace: seq<State>, steps: seq<Step>, n: nat, t: Tid)
    requires IsRun(trace, steps) && n < |trace| && t in trace[n].pc && trace[n].pc[t].Signal?
    ensures trace[n].i >= 0 && (trace[n].pc[t].m.Exclusive? ==> trace[n].i == 0)
  {
    if n > 0 {
      RunInv(trace, steps, n - 1);
      var before, step := trace[n - 1], steps[n - 1];
      if before.pc[t].Signal? {
        SignalIsFree(trace, steps, n - 1, t);
        assert HasMutex(before.pc[t]) && (step.Check? || step.Update? ==> HasMutex(before.pc[step.t]));
      } else {
        assert step == Update(t) && t in Holders(before.pc, before.pc[t].m);
      }
    }
  }

  ghost predicate NoneAsleep(pc: map<Tid, Pc>) { forall t {:trigger Sleeping(pc, t)} :: !Sleeping(pc, t) }

  /** A writer leaves the monitor only when it has woken everybody. */
  lemma WriterWakesAll(trace: seq<State>, steps: seq<Step>, n: nat, t: Tid)
    requires IsRun(trace, steps) && n < |steps| && t in trace[n].pc
    requires trace[n].pc[t] == Signal(Exclusive) && trace[n + 1].pc[t] != Signal(Exclusive)
    ensures trace[n + 1].pc == trace[n].pc[t := Done(Exclusive)]
    ensures NoneAsleep(trace[n + 1].pc)
  {
    RunInv(trace, steps, n);
    var pc, after := trace[n].pc, trace[n + 1].pc;
    assert NoneAsleep(pc);
    forall u {:trigger Sleeping(after, u)}
      ensures !Sleeping(after, u)
    {
      assert !Sleeping(pc, u);
    }
  }

  // ---------------------------------------------------------------- readers share

  /** A run goes on with any step that is enabled where it ends. */
  lemma Extended(trace: seq<State>, steps: seq<Step>, step: Step)
    requires IsRun(trace, steps) && Enabled(trace[|steps|], step)
    ensures IsRun(trace + [Do(trace[|steps|], step)], steps + [step])
  {
    var trace', steps' := trace + [Do(trace[|steps|], step)], steps + [step];
    forall n | 0 <= n < |steps'|
      ensures Enabled(trace'[n], steps'[n]) && trace'[n + 1] == Do(trace'[n], steps'[n])
    {
      assert n < |steps| ==> trace'[n] == trace[n] && trace'[n + 1] == trace[n + 1] && steps'[n] == steps[n];
    }
  }

  /** The first j of k threads are inside as readers, the others have not come. */
  ghost function ReadersIn(k: nat, j: nat): State {
    State(j, None, map t | t in UpTo(k) :: if t < j then In(Shared) else Out)
  }

  /** Readers do share the lock: for every k there is a run after which k of them are inside at once. */
  lemma {:induction false} ReadersShare(k: nat, j: nat) returns (trace: seq<State>, steps: seq<Step>)
    requires j <= k
    ensures IsRun(trace, steps) && trace[|steps|] == ReadersIn(k, j)
    ensures forall t: Tid :: t < j ==> t in trace[|steps|].pc && trace[|steps|].pc[t] == In(Shared)
  {
    if j == 0 {
      trace, steps := [ReadersIn(k, 0)], [];
    } else {
      trace, steps := ReadersShare(k, j - 1);
      trace, steps := ReaderEnters(trace, steps, k, j - 1);
    }
  }

  lemma ReaderEnters(trace: seq<State>, steps: seq<Step>, k: nat, t: Tid)
    returns (trace': seq<State>, steps': seq<Step>)
    requires IsRun(trace, steps) && t < k && trace[|steps|] == ReadersIn(k, t)
    ensures IsRun(trace', steps') && trace'[|steps'|] == ReadersIn(k, t + 1)
  {
    trace', steps' := Go(trace, steps, Begin(t, Shared));
    trace', steps' := Go(trace', steps', TakeMutex(t));
    trace', steps' := Go(trace', steps', Check(t));
    trace', steps' := Go(trace', steps', Proceed(t));
    OneMoreReader(ReadersIn(k, t), k, t);
  }

  /** The four steps of a reader that finds no writer inside. */
  lemma OneMoreReader(s: State, k: nat, t: Tid)
    requires s == ReadersIn(k, t) && t < k
    ensures s.pc[t := Want(Shared)][t := Test(Shared, false)][t := Enter(Shared)][t := In(Shared)] ==
            ReadersIn(k, t + 1).pc
  {
  }

  lemma Go(trace: seq<State>, steps: seq<Step>, step: Step) returns (trace': seq<State>, steps': seq<Step>)
    requires IsRun(trace, steps) && Enabled(trace[|steps|], step)
    ensures IsRun(trace', steps') && trace'[|steps'|] == Do(trace[|steps|], step)
  {
    Extended(trace, steps, step);
    trace', steps' := trace + [Do(trace[|steps|], step)], steps + [step];
  }
}

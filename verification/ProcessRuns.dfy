/** Theorems about whole runs of the process engine. A run is any sequence of traps: which trap comes
    next, and with which registers, is up to the user programs and the clock. */
module ProcessRuns {
  import opened Processes
  import opened Scheduling

  datatype Trap = Trap(user: Frame, event: Event)

  /** Where a run leads: a system, or a halted machine. */
  datatype Reached = At(sys: Sys) | Halted

  /** The process that goes on is not a zombie. */
  lemma CurrentLives(s: Sys, e: Event)
    requires WellFormed(s)
    ensures var next := Schedule(Prepared(s, e));
      var t := Seen(s, e);
      if Decides(s, e) && next != -1 then t.procs[next].status == Ready
      else e.Exit? || t.procs[s.cur].status != Zombie
  {
    ScheduleIsNearest(Prepared(s, e));
    SeenProc(s, e, s.cur);
  }

  /** A step keeps the list, its pids and its parents, and the current process among the living. */
  lemma StepKeeps(s: Sys, user: Frame, e: Event)
    requires WellFormed(s) && Step(s, user, e).Resumed?
    ensures var s' := Step(s, user, e).sys;
      && WellFormed(s')
      && |s.procs| <= |s'.procs| <= |s.procs| + (if e.Create? || e.Fork? then 1 else 0)
      && (forall i :: 0 <= i < |s.procs| ==>
            s'.procs[i].pid == s.procs[i].pid && s'.procs[i].parent == s.procs[i].parent)
  {
    hide Step, Schedule, Prepared, SameBut, Seen, Decides;
    StepCur(s, user, e);
    var s' := Step(s, user, e).sys;
    forall i | 0 <= i < |s.procs|
      ensures s'.procs[i].pid == i + 1 && s'.procs[i].parent == s.procs[i].parent
    {
      ProcKept(s, user, e, i);
    }
    CurrentKept(s, user, e);
  }

  lemma ProcKept(s: Sys, user: Frame, e: Event, i: nat)
    requires WellFormed(s) && Step(s, user, e).Resumed? && i < |s.procs|
    ensures i < |Step(s, user, e).sys.procs|
    ensures var q := Step(s, user, e).sys.procs[i];
      q.pid == i + 1 && q.parent == s.procs[i].parent && q.status == Seen(s, e).procs[i].status
  {
    StepProc(s, user, e, i);
    SeenProc(s, e, i);
    hide Step, Seen;
  }

  lemma CurrentKept(s: Sys, user: Frame, e: Event)
    requires WellFormed(s) && Step(s, user, e).Resumed?
    ensures var s' := Step(s, user, e).sys; s'.cur < |s'.procs| && s'.procs[s'.cur].status != Zombie
  {
    hide Step, Schedule, Prepared, Seen;
    StepCur(s, user, e);
    CurrentLives(s, e);
    ProcKept(s, user, e, Step(s, user, e).sys.cur);
  }

  ghost function After(s: Sys, traps: seq<Trap>): Reached
    requires WellFormed(s)
    decreases |traps|
  {
    if traps == [] then At(s) else
      var o := Step(s, traps[0].user, traps[0].event);
      if o.Panic? then Halted else
        StepKeeps(s, traps[0].user, traps[0].event);
        After(o.sys, traps[1..])
  }

  /** In every state a run reaches the list is intact: pids ascend, parents come before children, and
      the current process is listed and has not exited. */
  lemma {:induction false} RunKeeps(s: Sys, traps: seq<Trap>)
    requires WellFormed(s) && After(s, traps).At?
    ensures var s' := After(s, traps).sys;
      && WellFormed(s') && |s.procs| <= |s'.procs|
      && (forall i :: 0 <= i < |s.procs| ==>
            s'.procs[i].pid == s.procs[i].pid && s'.procs[i].parent == s.procs[i].parent)
    decreases |traps|
  {
    if traps != [] {
      StepKeeps(s, traps[0].user, traps[0].event);
      hide Step, WellFormed;
      RunKeeps(Step(s, traps[0].user, traps[0].event).sys, traps[1..]);
    }
  }

  // ----- Bounded waiting -----

  /** A ready process that is not running stays ready until it runs, the machine cannot halt, and each
      scheduling decision brings its turn strictly nearer. */
  lemma StepApproaches(s: Sys, user: Frame, e: Event, i: nat)
    requires WellFormed(s) && i < |s.procs| && i != s.cur && s.procs[i].status == Ready
    ensures var o := Step(s, user, e);
      && o.Resumed? && WellFormed(o.sys) && i < |o.sys.procs|
      && o.sys.procs[i].status == Ready
      && (o.sys.cur != i ==>
            Distance(|o.sys.procs|, o.sys.cur, i) + (if Decides(s, e) then 1 else 0)
            <= Distance(|s.procs|, s.cur, i) + (if e.Create? || e.Fork? then 1 else 0))
  {
    StepCur(s, user, e);
    SeenProc(s, e, i);
    ScheduleIsNearest(Prepared(s, e));
    StepKeepsIfResumed(s, user, e);
    hide Step, Schedule, Prepared, WellFormed;
    StepProc(s, user, e, i);
  }

  lemma StepKeepsIfResumed(s: Sys, user: Frame, e: Event)
    requires WellFormed(s)
    ensures Step(s, user, e).Resumed? ==> WellFormed(Step(s, user, e).sys)
    ensures Step(s, user, e).Resumed? ==> |s.procs| <= |Step(s, user, e).sys.procs|
  {
    if Step(s, user, e).Resumed? {
      StepKeeps(s, user, e);
    }
  }

  /** Scheduling decisions taken, and processes created, along a run that does not halt. */
  ghost function Decisions(s: Sys, traps: seq<Trap>): nat
    requires WellFormed(s) && After(s, traps).At?
    decreases |traps|
  {
    if traps == [] then 0 else
      StepKeeps(s, traps[0].user, traps[0].event);
      (if Decides(s, traps[0].event) then 1 else 0)
      + Decisions(Step(s, traps[0].user, traps[0].event).sys, traps[1..])
  }

  function Creations(traps: seq<Trap>): nat
    decreases |traps|
  {
    if traps == [] then 0 else
      (if traps[0].event.Create? || traps[0].event.Fork? then 1 else 0) + Creations(traps[1..])
  }

  /** Process `i` is current in some state of the run. */
  ghost predicate Dispatched(s: Sys, traps: seq<Trap>, i: nat)
    requires WellFormed(s) && After(s, traps).At?
    decreases |traps|
  {
    s.cur == i
    || (traps != [] && (StepKeeps(s, traps[0].user, traps[0].event);
                        Dispatched(Step(s, traps[0].user, traps[0].event).sys, traps[1..], i)))
  }

  /** Before a waiting ready process has run, nothing halts the machine. */
  lemma {:induction false} BoundedWaitingFrom(s: Sys, traps: seq<Trap>, i: nat)
    requires WellFormed(s) && After(s, traps).At?
    requires i < |s.procs| && i != s.cur && s.procs[i].status == Ready
    requires Decisions(s, traps) >= Distance(|s.procs|, s.cur, i) + Creations(traps)
    ensures Dispatched(s, traps, i)
    decreases |traps|
  {
    if traps != [] {
      var e := traps[0].event;
      StepApproaches(s, traps[0].user, e, i);
      hide Step, Decides;
      var s' := Step(s, traps[0].user, e).sys;
      if s'.cur == i {
        assert Dispatched(s', traps[1..], i);
      } else {
        BoundedWaitingFrom(s', traps[1..], i);
      }
    }
  }

  /** With N processes, a ready process runs within N - 1 scheduling decisions, plus one for every
      process created meanwhile, whatever the other processes do. */
  lemma BoundedWaiting(s: Sys, traps: seq<Trap>, i: nat)
    requires WellFormed(s) && After(s, traps).At?
    requires i < |s.procs| && s.procs[i].status == Ready
    requires Decisions(s, traps) >= |s.procs| - 1 + Creations(traps)
    ensures Dispatched(s, traps, i)
  {
    if i != s.cur {
      BoundedWaitingFrom(s, traps, i);
    }
  }

  // ----- No panic -----

  /** Whenever process `a` is current, the next trap is not one that gives up the processor. */
  ghost predicate NeverBlocks(s: Sys, traps: seq<Trap>, a: nat)
    requires WellFormed(s)
    decreases |traps|
  {
    traps != [] ==>
      var e := traps[0].event;
      && (s.cur == a ==> !e.Sleep? && !e.Wait? && !e.Exit?)
      && (Step(s, traps[0].user, e).Resumed? ==>
            (StepKeeps(s, traps[0].user, e); NeverBlocks(Step(s, traps[0].user, e).sys, traps[1..], a)))
  }

  lemma StepStaysReady(s: Sys, user: Frame, e: Event, a: nat)
    requires WellFormed(s) && a < |s.procs| && s.procs[a].status == Ready
    requires s.cur == a ==> !e.Sleep? && !e.Wait? && !e.Exit?
    ensures var o := Step(s, user, e);
      o.Resumed? && WellFormed(o.sys) && a < |o.sys.procs| && o.sys.procs[a].status == Ready
  {
    StepCur(s, user, e);
    SeenProc(s, e, a);
    ScheduleIsNearest(Prepared(s, e));
    StepKeepsIfResumed(s, user, e);
    hide Step, Schedule, Prepared, WellFormed;
    StepProc(s, user, e, a);
  }

  /** If some ready process never sleeps, waits or exits, as `user_main`
      never does in its endless yield loop, no run reaches either panic. */
  lemma {:induction false} NoPanic(s: Sys, traps: seq<Trap>, a: nat)
    requires WellFormed(s) && a < |s.procs| && s.procs[a].status == Ready
    requires NeverBlocks(s, traps, a)
    ensures After(s, traps).At?
    decreases |traps|
  {
    if traps != [] {
      StepStaysReady(s, traps[0].user, traps[0].event, a);
      hide Step;
      NoPanic(Step(s, traps[0].user, traps[0].event).sys, traps[1..], a);
    }
  }
}

/** Wait, exit and sleep over whole runs: no wakeup is lost, every answer is true, no sleeper is early. */
module ProcessWaits {
  import opened Processes
  import opened Scheduling
  import opened ProcessRuns

  // ----- No lost wakeup -----

  /** Nobody is blocked inside `sys_wait` while one of its children has exited. */
  ghost predicate NoLostWakeup(s: Sys) {
    forall i, j :: 0 <= i < |s.procs| && 0 <= j < |s.procs|
                   && s.procs[i].status == Blocked && s.procs[i].inWait && s.procs[j].parent == s.procs[i].pid ==>
      s.procs[j].status != Zombie
  }

  lemma SeenWait(s: Sys, e: Event, i: nat)
    requires WellFormed(s) && i < |s.procs|
    ensures var p, q := s.procs[i], Seen(s, e).procs[i];
      && q.pid == i + 1 && q.parent == p.parent
      && (q.status == Blocked && q.inWait ==>
            (p.status == Blocked && p.inWait) || (i == s.cur && FindZombie(s.procs, i + 1) == -1 && e.Wait?))
      && (q.status == Zombie ==> p.status == Zombie || (i == s.cur && e.Exit?))
      && (e.Exit? && s.procs[s.cur].parent == i + 1 ==> q.status == Ready)
  {
    hide Schedule;
  }

  lemma SeenKeepsWakeups(s: Sys, e: Event)
    requires WellFormed(s) && NoLostWakeup(s)
    ensures NoLostWakeup(Seen(s, e))
  {
    var t := Seen(s, e);
    hide Seen;
    forall i, j | 0 <= i < |t.procs| && 0 <= j < |t.procs| && t.procs[i].status == Blocked && t.procs[i].inWait
                  && t.procs[j].parent == t.procs[i].pid
      ensures t.procs[j].status != Zombie
    {
      SeenWait(s, e, i);
      SeenWait(s, e, j);
    }
  }

  lemma StepKeepsWakeups(s: Sys, user: Frame, e: Event)
    requires WellFormed(s) && NoLostWakeup(s) && Step(s, user, e).Resumed?
    ensures WellFormed(Step(s, user, e).sys) && NoLostWakeup(Step(s, user, e).sys)
  {
    SeenKeepsWakeups(s, e);
    StepKeeps(s, user, e);
    StepCur(s, user, e);
    var t, s' := Seen(s, e), Step(s, user, e).sys;
    hide Step, Prepared, Decides, Schedule, Seen;
    forall i, j | 0 <= i < |s'.procs| && 0 <= j < |s'.procs| && s'.procs[i].status == Blocked && s'.procs[i].inWait
                  && s'.procs[j].parent == s'.procs[i].pid
      ensures s'.procs[j].status != Zombie
    {
      if i < |s.procs| { StepProc(s, user, e, i); }
      if j < |s.procs| { StepProc(s, user, e, j); }
      assert i < |s.procs|;
    }
  }

  /** In no state of any run is a process blocked inside `sys_wait` while it has a zombie child. */
  lemma {:induction false} RunKeepsWakeups(s: Sys, traps: seq<Trap>)
    requires WellFormed(s) && NoLostWakeup(s) && After(s, traps).At?
    ensures NoLostWakeup(After(s, traps).sys)
    decreases |traps|
  {
    if traps != [] {
      StepKeepsWakeups(s, traps[0].user, traps[0].event);
      hide Step, NoLostWakeup;
      RunKeepsWakeups(Step(s, traps[0].user, traps[0].event).sys, traps[1..]);
    }
  }

  // ----- What a wait returns -----

  /** A wait that returns a pid returns that of a child that has exited, and stores that child's exit
      code; it finds one whenever there is one. Otherwise the caller sees -1, which `user_wait` retries,
      and is blocked with the machine running somebody else. */
  lemma WaitAnswers(s: Sys, user: Frame)
    requires WellFormed(s)
    ensures var o := Step(s, user, Wait);
      var pid := s.procs[s.cur].pid;
      if exists k :: 0 <= k < |s.procs| && s.procs[k].parent == pid && s.procs[k].status == Zombie then
        && o.Resumed? && o.sys.cur == s.cur && FindZombie(s.procs, pid) != -1
        && (exists k :: 0 <= k < |s.procs| && s.procs[k].parent == pid && s.procs[k].status == Zombie
                        && o.frame == user.(eax := s.procs[k].pid) && WaitStatus(s) == s.procs[k].exitCode)
      else
        o.Panic? || (o.sys.cur != s.cur && o.sys.procs[s.cur].status == Blocked && o.sys.procs[s.cur].inWait
                     && o.sys.procs[s.cur].regs.eax == 0xFFFF_FFFF && o.sys.procs[s.cur].wake == s.procs[s.cur].wake)
  {
    var k := FindZombie(s.procs, s.procs[s.cur].pid);
    var s1 := WithRegs(s, user);
    RegsShape(s, user);
    SameTableZombie(s.procs, s1.procs, s.procs[s.cur].pid);
    assert SameBut(s.procs[s.cur], s1.procs[s.cur]);
    if k != -1 {
      assert SameBut(s.procs[k], s1.procs[k]);
      hide WithRegs, Regs;
      RegsShape(s1, user.(eax := s.procs[k].pid));
      assert Step(s, user, Wait).frame == user.(eax := s.procs[k].pid);
    } else {
      WaitBlocks(s1);
    }
  }

  lemma WaitBlocks(s: Sys)
    requires s.cur < |s.procs| && StackOk(s) && FindZombie(s.procs, s.procs[s.cur].pid) == -1
    ensures var o := SysWait(s);
      o.Panic? || (o.sys.cur != s.cur && s.cur < |o.sys.procs|
                   && o.sys.procs[s.cur].status == Blocked && o.sys.procs[s.cur].inWait
                   && o.sys.procs[s.cur].regs.eax == MINUS_ONE
                   && o.sys.procs[s.cur].wake == s.procs[s.cur].wake)
  {
    var blocked := Block(s, s.procs[s.cur].wake, true);
    var waiting := SetEax(blocked, MINUS_ONE);
    RegsShape(blocked, Regs(blocked).(eax := MINUS_ONE));
    ScheduleIsNearest(waiting);
    hide Schedule;
    assert SameBut(blocked.procs[s.cur], waiting.procs[s.cur]);
  }

  /** Process `i` exits with `code` somewhere along the run. */
  ghost predicate ExitsWith(s: Sys, traps: seq<Trap>, i: nat, code: int)
    requires WellFormed(s) && After(s, traps).At?
    decreases |traps|
  {
    traps != []
    && ((s.cur == i && traps[0].event == Exit(code))
        || (StepKeeps(s, traps[0].user, traps[0].event);
            ExitsWith(Step(s, traps[0].user, traps[0].event).sys, traps[1..], i, code)))
  }

  lemma SeenExit(s: Sys, e: Event, i: nat)
    requires WellFormed(s) && i < |s.procs|
    ensures var p, q := s.procs[i], Seen(s, e).procs[i];
      && (q.exitCode == p.exitCode || (s.cur == i && e == Exit(q.exitCode)))
      && (q.status == Zombie && p.status != Zombie ==> s.cur == i && e == Exit(q.exitCode))
  {
    hide Schedule;
  }

  lemma {:induction false} ExitCodeTrue(s: Sys, traps: seq<Trap>, i: nat)
    requires WellFormed(s) && After(s, traps).At? && i < |s.procs|
    ensures i < |After(s, traps).sys.procs|
    ensures var code := After(s, traps).sys.procs[i].exitCode;
      code == s.procs[i].exitCode || ExitsWith(s, traps, i, code)
    decreases |traps|
  {
    if traps != [] {
      var s' := Step(s, traps[0].user, traps[0].event).sys;
      StepKeeps(s, traps[0].user, traps[0].event);
      StepProc(s, traps[0].user, traps[0].event, i);
      SeenExit(s, traps[0].event, i);
      hide Step, Seen;
      ExitCodeTrue(s', traps[1..], i);
    }
  }

  lemma {:induction false} ZombieExitedFrom(s: Sys, traps: seq<Trap>, i: nat)
    requires WellFormed(s) && After(s, traps).At? && i < |s.procs| && s.procs[i].status != Zombie
    requires i < |After(s, traps).sys.procs| && After(s, traps).sys.procs[i].status == Zombie
    ensures ExitsWith(s, traps, i, After(s, traps).sys.procs[i].exitCode)
    decreases |traps|
  {
    if traps != [] {
      var s' := Step(s, traps[0].user, traps[0].event).sys;
      StepKeeps(s, traps[0].user, traps[0].event);
      StepProc(s, traps[0].user, traps[0].event, i);
      SeenExit(s, traps[0].event, i);
      hide Step, Seen;
      if s'.procs[i].status == Zombie {
        ExitCodeTrue(s', traps[1..], i);
      } else {
        ZombieExitedFrom(s', traps[1..], i);
      }
    }
  }

  /** A zombie exited on its own account, and the code kept for its parent is the one it exited with,
      whether it was there at the start of the run or was created along it. */
  lemma {:induction false} ZombieExited(s: Sys, traps: seq<Trap>, i: nat)
    requires WellFormed(s) && After(s, traps).At? && (i < |s.procs| ==> s.procs[i].status != Zombie)
    requires i < |After(s, traps).sys.procs| && After(s, traps).sys.procs[i].status == Zombie
    ensures ExitsWith(s, traps, i, After(s, traps).sys.procs[i].exitCode)
    decreases |traps|
  {
    if i < |s.procs| {
      ZombieExitedFrom(s, traps, i);
    } else if traps != [] {
      StepKeeps(s, traps[0].user, traps[0].event);
      StepCur(s, traps[0].user, traps[0].event);
      hide Step, Schedule, Prepared;
      ZombieExited(Step(s, traps[0].user, traps[0].event).sys, traps[1..], i);
    }
  }

  /** A wait keeps the deadline of the caller's last sleep. Unless that is still ahead, the next timer
      interrupt makes the caller ready again, so that it asks anew. */
  lemma WaitPolls(s: Sys, user: Frame, next: Frame)
    requires WellFormed(s) && s.procs[s.cur].wake <= s.ticks + 1
    requires Step(s, user, Wait).Resumed? && Step(s, user, Wait).sys.cur != s.cur
    ensures WellFormed(Step(s, user, Wait).sys)
    ensures var o := Step(Step(s, user, Wait).sys, next, Timer);
      o.Resumed? && s.cur < |o.sys.procs| && o.sys.procs[s.cur].status == Ready
  {
    var c, s1 := s.cur, Step(s, user, Wait).sys;
    WaitAnswers(s, user);
    StepKeeps(s, user, Wait);
    StepCur(s, user, Wait);
    StepCur(s1, next, Timer);
    hide Step, Schedule, Prepared;
    StepAsleep(s1, next, Timer, c, s.procs[c].wake);
  }

  // ----- Sleep -----

  /** `sys_sleep` gives up the processor exactly when somebody else is ready. */
  lemma SleepSwitchesExactly(s: Sys, user: Frame, time: nat)
    requires WellFormed(s)
    ensures var o := Step(s, user, Sleep(time));
      && o.Resumed?
      && (o.sys.cur != s.cur <==> exists i :: 0 <= i < |s.procs| && i != s.cur && s.procs[i].status == Ready)
      && s.cur < |o.sys.procs|
      && o.sys.procs[s.cur].status == Blocked && o.sys.procs[s.cur].wake == Deadline(s.ticks, time)
  {
    var e := Sleep(time);
    hide Deadline;
    StepCur(s, user, e);
    StepProc(s, user, e, s.cur);
    var t := Prepared(s, e);
    ScheduleIsNearest(t);
    hide Step, Schedule;
    assert forall i :: 0 <= i < |s.procs| && i != s.cur ==> t.procs[i].status == s.procs[i].status;
  }

  /** The deadline is `time` ticks from now exactly when that is below 2^31; any time that reaches it, a
      negative one included, gives a deadline that is already past. */
  lemma DeadlineExactly(ticks: nat, time: nat)
    requires ticks < 0x8000_0000 && time < 0x1_0000_0000
    ensures Deadline(ticks, time) == ticks + time <==> ticks + time < 0x8000_0000
    ensures ticks + time >= 0x8000_0000 ==> Deadline(ticks, time) < ticks
  {
    if ticks + time >= 0x1_0000_0000 {
      assert (ticks + time) % 0x1_0000_0000 == ticks + time - 0x1_0000_0000;
    }
  }

  /** Asleep until tick `w`, and not running. */
  predicate Asleep(s: Sys, i: nat, w: int) {
    i < |s.procs| && i != s.cur && s.procs[i].status == Blocked && s.procs[i].wake == w
  }

  /** The clock has reached the deadline when somebody looks, or a child exits. */
  predicate Wakes(s: Sys, e: Event, i: nat, w: int)
    requires s.cur < |s.procs|
  {
    || (e.Timer? && s.ticks + 1 >= w)
    || (e.Yield? && s.ticks >= w)
    || (e.Exit? && s.procs[s.cur].parent == i + 1)
  }

  /** Exactly such a trap makes a sleeper ready; after any other it still sleeps. */
  lemma StepAsleep(s: Sys, user: Frame, e: Event, i: nat, w: int)
    requires WellFormed(s) && Asleep(s, i, w) && Step(s, user, e).Resumed?
    ensures var s' := Step(s, user, e).sys;
      && i < |s'.procs|
      && (s'.procs[i].status == Ready <==> Wakes(s, e, i, w))
      && (Asleep(s', i, w) <==> !Wakes(s, e, i, w))
      && s'.ticks == s.ticks + (if e.Timer? then 1 else 0)
  {
    StepCur(s, user, e);
    StepProc(s, user, e, i);
    SeenAsleep(s, e, i, w);
    ScheduleIsNearest(Prepared(s, e));
    hide Step, Schedule, Prepared, Wakes;
  }

  lemma SeenAsleep(s: Sys, e: Event, i: nat, w: int)
    requires WellFormed(s) && Asleep(s, i, w)
    ensures var q := Seen(s, e).procs[i];
      && q.wake == w
      && q.status == (if Wakes(s, e, i, w) then Ready else Blocked)
  {
    hide Schedule;
  }

  lemma {:induction false} TicksGrow(s: Sys, traps: seq<Trap>)
    requires WellFormed(s) && After(s, traps).At?
    ensures s.ticks <= After(s, traps).sys.ticks
    decreases |traps|
  {
    if traps != [] {
      StepKeeps(s, traps[0].user, traps[0].event);
      StepCur(s, traps[0].user, traps[0].event);
      hide Step, Schedule, Prepared;
      TicksGrow(Step(s, traps[0].user, traps[0].event).sys, traps[1..]);
    }
  }

  /** The first state of the run in which process `i` no longer sleeps comes before tick `w`. */
  ghost predicate WokenEarly(s: Sys, traps: seq<Trap>, i: nat, w: int)
    requires WellFormed(s) && After(s, traps).At?
    decreases |traps|
  {
    traps != [] &&
      (StepKeeps(s, traps[0].user, traps[0].event);
       var s' := Step(s, traps[0].user, traps[0].event).sys;
       if Asleep(s', i, w) then WokenEarly(s', traps[1..], i, w) else s'.ticks < w)
  }

  /** Some child of process `i` exits along the run, before tick `w`. */
  ghost predicate ChildExits(s: Sys, traps: seq<Trap>, i: nat, w: int)
    requires WellFormed(s) && After(s, traps).At?
    decreases |traps|
  {
    traps != []
    && ((traps[0].event.Exit? && s.procs[s.cur].parent == i + 1 && s.ticks < w)
        || (StepKeeps(s, traps[0].user, traps[0].event);
            ChildExits(Step(s, traps[0].user, traps[0].event).sys, traps[1..], i, w)))
  }

  lemma {:induction false} TooLateToExit(s: Sys, traps: seq<Trap>, i: nat, w: int)
    requires WellFormed(s) && After(s, traps).At? && s.ticks >= w
    ensures !ChildExits(s, traps, i, w)
    decreases |traps|
  {
    if traps != [] {
      StepKeeps(s, traps[0].user, traps[0].event);
      StepCur(s, traps[0].user, traps[0].event);
      hide Step, Schedule, Prepared;
      TooLateToExit(Step(s, traps[0].user, traps[0].event).sys, traps[1..], i, w);
    }
  }

  /** A sleeper is woken before its deadline if and only if one of its children exits before that. */
  lemma {:induction false} WokenEarlyExactly(s: Sys, traps: seq<Trap>, i: nat, w: int)
    requires WellFormed(s) && After(s, traps).At? && Asleep(s, i, w)
    ensures WokenEarly(s, traps, i, w) <==> ChildExits(s, traps, i, w)
    decreases |traps|
  {
    if traps != [] {
      var s' := Step(s, traps[0].user, traps[0].event).sys;
      StepKeeps(s, traps[0].user, traps[0].event);
      StepAsleep(s, traps[0].user, traps[0].event, i, w);
      hide Step, Asleep;
      if Asleep(s', i, w) {
        WokenEarlyExactly(s', traps[1..], i, w);
      } else if s'.ticks >= w {
        TooLateToExit(s', traps[1..], i, w);
      }
    }
  }

  /** So it is not running in any state before its deadline, unless a child has exited by then. */
  lemma {:induction false} NeverEarly(s: Sys, traps: seq<Trap>, i: nat, w: int)
    requires WellFormed(s) && After(s, traps).At? && Asleep(s, i, w)
    requires After(s, traps).sys.cur == i
    ensures After(s, traps).sys.ticks >= w || ChildExits(s, traps, i, w)
    decreases |traps|
  {
    if traps != [] {
      var s' := Step(s, traps[0].user, traps[0].event).sys;
      StepKeeps(s, traps[0].user, traps[0].event);
      StepAsleep(s, traps[0].user, traps[0].event, i, w);
      TicksGrow(s', traps[1..]);
      hide Step;
      if Asleep(s', i, w) {
        NeverEarly(s', traps[1..], i, w);
      }
    }
  }

  /** From the timer interrupt that reaches its deadline on, a sleeper runs within N - 1 scheduling
      decisions, plus one for every process created meanwhile. */
  lemma WakesInTime(s: Sys, traps: seq<Trap>, i: nat)
    requires WellFormed(s) && After(s, traps).At? && traps != [] && traps[0].event == Timer
    requires i < |s.procs| && s.procs[i].status == Blocked && s.ticks + 1 >= s.procs[i].wake
    requires Decisions(s, traps) >= |s.procs| - 1 + Creations(traps)
    ensures Dispatched(s, traps, i)
  {
    var s' := Step(s, traps[0].user, Timer).sys;
    StepCur(s, traps[0].user, Timer);
    StepProc(s, traps[0].user, Timer, i);
    TimerWakes(s, i);
    ScheduleIsNearest(Prepared(s, Timer));
    StepKeeps(s, traps[0].user, Timer);
    hide Step, Schedule, Prepared;
    if s.cur != i {
      if s'.cur == i {
        assert Dispatched(s', traps[1..], i);
      } else {
        BoundedWaitingFrom(s', traps[1..], i);
      }
    }
  }

  lemma TimerWakes(s: Sys, i: nat)
    requires WellFormed(s) && i < |s.procs| && s.procs[i].status == Blocked && s.ticks + 1 >= s.procs[i].wake
    ensures Seen(s, Timer).procs[i].status == Ready && Seen(s, Timer) == Prepared(s, Timer)
  {
  }
}

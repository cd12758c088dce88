/** `user_wait` of user/user_space.c: retry the system call until it answers something other than -1. */
module UserWait {
  import opened Processes
  import opened Scheduling
  import opened ProcessRuns
  import opened ProcessWaits

  /** `pid` and `status` are those of a child of process `c` that has exited. */
  ghost predicate ExitedChild(s: Sys, c: nat, pid: nat, status: int) {
    c < |s.procs| && exists k :: 0 <= k < |s.procs| && s.procs[k].parent == s.procs[c].pid
                                 && s.procs[k].status == Zombie
                                 && s.procs[k].pid == pid && s.procs[k].exitCode == status
  }

  /** Whether the last trap of process `c`, this one included, is a wait. */
  predicate Asking(s: Sys, e: Event, c: nat, asked: bool) {
    if s.cur == c then e.Wait? else asked
  }

  /** If process `c` comes back from a wait with something other than -1, that wait is the trap just
      made, and it answered with an exited child of `c`, whose exit code it stored. */
  ghost predicate AnswerTrue(s: Sys, user: Frame, e: Event, c: nat, asked: bool)
    requires s.cur < |s.procs| && StackOk(s)
  {
    var o := Step(s, user, e);
    o.Resumed? && o.sys.cur == c && Asking(s, e, c, asked) && o.frame.eax != MINUS_ONE ==>
      && s.cur == c && FindZombie(s.procs, s.procs[s.cur].pid) != -1
      && ExitedChild(s, c, o.frame.eax, WaitStatus(s))
  }

  /** Every answer process `c` gets along the run is true. `asked` tells whether its last trap before the
      run was a wait. */
  ghost predicate AnswersTrue(s: Sys, traps: seq<Trap>, c: nat, asked: bool)
    requires WellFormed(s)
    decreases |traps|
  {
    traps != [] ==>
      var user, e := traps[0].user, traps[0].event;
      && AnswerTrue(s, user, e, c, asked)
      && (Step(s, user, e).Resumed? ==>
            (StepKeeps(s, user, e);
             AnswersTrue(Step(s, user, e).sys, traps[1..], c, Asking(s, e, c, asked))))
  }

  // ----- -1 in store -----

  /** Process `c` is not running, has -1 in store, and no trap lands on its frame. */
  ghost predicate Parked(s: Sys, c: nat) {
    && s.cur < |s.procs| && StackOk(s)
    && c < |s.procs| && c != s.cur && s.esp0 != Of(c) && s.procs[c].regs.eax == MINUS_ONE
  }

  /** Process `c` stays parked, or is resumed with -1. */
  ghost predicate StillAsks(o: Outcome, c: nat) {
    o.Resumed? ==> if o.sys.cur == c then o.frame.eax == MINUS_ONE else Parked(o.sys, c)
  }

  /** A process whose last trap was a wait is parked while others run. */
  ghost predicate Stored(s: Sys, c: nat, asked: bool) {
    asked && c != s.cur ==> Parked(s, c)
  }

  lemma RegsParked(s: Sys, f: Frame, c: nat)
    requires Parked(s, c)
    ensures Parked(WithRegs(s, f), c)
  {
  }

  lemma BlockParked(s: Sys, wake: int, inWait: bool, c: nat)
    requires Parked(s, c)
    ensures Parked(Block(s, wake, inWait), c)
  {
  }

  lemma WakeParked(s: Sys, c: nat)
    requires Parked(s, c)
    ensures Parked(WakeProcesses(s), c) && Parked(CountTick(s), c)
  {
  }

  lemma SwitchAsks(s: Sys, next: nat, c: nat)
    requires Parked(s, c) && next < |s.procs|
    ensures StillAsks(ContextSwitch(s, next), c)
  {
  }

  lemma SwitchIfAnyAsks(s: Sys, c: nat)
    requires Parked(s, c)
    ensures StillAsks(SwitchIfAny(s), c)
  {
    if Schedule(s) != -1 {
      SwitchAsks(s, Schedule(s), c);
    }
    hide Schedule, ContextSwitch;
  }

  lemma TickAsks(s: Sys, c: nat)
    requires Parked(s, c)
    ensures StillAsks(Tick(s), c) && StillAsks(SysYield(s), c)
  {
    hide SwitchIfAny, Parked;
    WakeParked(s, c);
    WakeParked(CountTick(s), c);
    SwitchIfAnyAsks(WakeProcesses(s), c);
    SwitchIfAnyAsks(WakeProcesses(CountTick(s)), c);
  }

  lemma SleepAsks(s: Sys, time: nat, c: nat)
    requires Parked(s, c)
    ensures StillAsks(SysSleep(s, time), c)
  {
    hide SwitchIfAny;
    BlockParked(s, Deadline(s.ticks, time), false, c);
    SwitchIfAnyAsks(Block(s, Deadline(s.ticks, time), false), c);
  }

  lemma WaitAsks(s: Sys, c: nat)
    requires Parked(s, c)
    ensures StillAsks(SysWait(s), c)
  {
    hide Schedule, FindZombie, WithRegs, Regs, ContextSwitch;
    var k := FindZombie(s.procs, s.procs[s.cur].pid);
    if k != -1 {
      RegsParked(s, Regs(s).(eax := s.procs[k].pid), c);
    } else {
      var blocked := Block(s, s.procs[s.cur].wake, true);
      BlockParked(s, s.procs[s.cur].wake, true, c);
      RegsParked(blocked, Regs(blocked).(eax := MINUS_ONE), c);
      var waiting := SetEax(blocked, MINUS_ONE);
      if Schedule(waiting) != -1 {
        SwitchAsks(waiting, Schedule(waiting), c);
      }
    }
  }

  lemma ExitAsks(s: Sys, code: int, c: nat)
    requires Parked(s, c)
    ensures StillAsks(SysExit(s, code), c)
  {
    hide Schedule;
  }

  lemma ReturnAsks(s: Sys, e: Event, c: nat)
    requires Parked(s, c) && (e.Create? || e.Fork? || e.Exec? || e.Answer? || e.Quiet?)
    ensures StillAsks(Dispatch(s, e), c)
  {
  }

  /** Nothing others do gets process `c` out of its wait with anything but -1. */
  lemma StepAsks(s: Sys, user: Frame, e: Event, c: nat)
    requires Parked(s, c)
    ensures StillAsks(Step(s, user, e), c)
  {
    RegsParked(s, user, c);
    var s1 := WithRegs(s, user);
    hide Parked, WithRegs, Tick, SysYield, SysSleep, SysWait, SysExit;
    match e {
      case Timer => TickAsks(s1, c);
      case Yield => TickAsks(s1, c);
      case Sleep(time) => SleepAsks(s1, time, c);
      case Wait => WaitAsks(s1, c);
      case Exit(code) => ExitAsks(s1, code, c);
      case _ => ReturnAsks(s1, e, c);
    }
  }

  /** A wait that goes unanswered parks its caller. */
  lemma WaitParks(s: Sys, user: Frame)
    requires WellFormed(s) && Step(s, user, Wait).Resumed? && Step(s, user, Wait).sys.cur != s.cur
    ensures Parked(Step(s, user, Wait).sys, s.cur)
  {
    WaitAnswers(s, user);
    StepKeepsIfResumed(s, user, Wait);
    var s1 := WithRegs(s, user);
    RegsShape(s, user);
    hide WithRegs, Regs;
    WaitMovesStack(s1);
  }

  lemma WaitMovesStack(s: Sys)
    requires s.cur < |s.procs| && StackOk(s)
    ensures var o := SysWait(s); o.Resumed? && o.sys.cur != s.cur ==> o.sys.esp0 == Of(o.sys.cur)
  {
    hide Schedule;
  }

  lemma WaitStep(s: Sys, user: Frame, e: Event, c: nat, asked: bool)
    requires WellFormed(s) && Stored(s, c, asked)
    ensures AnswerTrue(s, user, e, c, asked)
    ensures Step(s, user, e).Resumed? ==> Stored(Step(s, user, e).sys, c, Asking(s, e, c, asked))
  {
    hide Step, Parked;
    if s.cur != c {
      if asked {
        StepAsks(s, user, e, c);
      }
    } else if e.Wait? {
      WaitAnswers(s, user);
      var k := FindZombie(s.procs, s.procs[c].pid);
      assert k != -1 ==> ExitedChild(s, c, s.procs[k].pid, s.procs[k].exitCode);
      if Step(s, user, e).Resumed? && Step(s, user, e).sys.cur != s.cur {
        WaitParks(s, user);
      }
    }
  }

  /** Over any run, however the clock interrupts the retries and whatever others do, what `user_wait`
      returns and stores are the pid and exit code of an exited child of its caller. */
  lemma {:induction false} UserWaitTrue(s: Sys, traps: seq<Trap>, c: nat, asked: bool)
    requires WellFormed(s) && Stored(s, c, asked)
    ensures AnswersTrue(s, traps, c, asked)
    decreases |traps|
  {
    if traps != [] {
      hide Step, AnswerTrue, Stored;
      var user, e := traps[0].user, traps[0].event;
      WaitStep(s, user, e, c, asked);
      if Step(s, user, e).Resumed? {
        StepKeeps(s, user, e);
        UserWaitTrue(Step(s, user, e).sys, traps[1..], c, Asking(s, e, c, asked));
      }
    }
  }

  // ----- From exit to answer -----

  /** Whether the last trap of process `c` is a wait, once the run is over. */
  ghost function AskingAfter(s: Sys, traps: seq<Trap>, c: nat, asked: bool): bool
    requires WellFormed(s) && After(s, traps).At?
    decreases |traps|
  {
    if traps == [] then asked else
      StepKeeps(s, traps[0].user, traps[0].event);
      AskingAfter(Step(s, traps[0].user, traps[0].event).sys, traps[1..], c,
                  Asking(s, traps[0].event, c, asked))
  }

  lemma {:induction false} StoredAfter(s: Sys, traps: seq<Trap>, c: nat, asked: bool)
    requires WellFormed(s) && Stored(s, c, asked) && After(s, traps).At?
    ensures Stored(After(s, traps).sys, c, AskingAfter(s, traps, c, asked))
    decreases |traps|
  {
    if traps != [] {
      hide Step, Stored;
      var user, e := traps[0].user, traps[0].event;
      StepKeeps(s, user, e);
      WaitStep(s, user, e, c, asked);
      StoredAfter(Step(s, user, e).sys, traps[1..], c, Asking(s, e, c, asked));
    }
  }

  /** Nobody has exited yet, as at boot. */
  ghost predicate NobodyExited(s: Sys) {
    forall i :: 0 <= i < |s.procs| ==> s.procs[i].status != Zombie
  }

  /** Process `k` is a child of process `c` with this pid, and called exit with this code along the run. */
  ghost predicate ChildExited(s: Sys, traps: seq<Trap>, c: nat, k: nat, pid: nat, code: int)
    requires WellFormed(s) && After(s, traps).At?
  {
    var t := After(s, traps).sys;
    && c < |t.procs| && k < |t.procs|
    && t.procs[k].parent == t.procs[c].pid && t.procs[k].pid == pid
    && ExitsWith(s, traps, k, code)
  }

  /** From the exit to the answer: when, after any run from a state in which nobody has exited, process
      `c` comes out of `user_wait`, it is by the wait just made, and with the pid of a child of its own
      that has called exit earlier in the run, with the code stored. */
  lemma AnswerOfExit(s: Sys, traps: seq<Trap>, user: Frame, e: Event, c: nat)
    requires WellFormed(s) && NobodyExited(s) && After(s, traps).At?
    ensures WellFormed(After(s, traps).sys)
    ensures var t := After(s, traps).sys;
      var o := Step(t, user, e);
      o.Resumed? && o.sys.cur == c && Asking(t, e, c, AskingAfter(s, traps, c, false)) && o.frame.eax != MINUS_ONE ==>
        && t.cur == c && e.Wait? && FindZombie(t.procs, t.procs[t.cur].pid) != -1
        && exists k :: ChildExited(s, traps, c, k, o.frame.eax, WaitStatus(t))
  {
    hide Step, After, FindZombie, Stored, ExitsWith, AskingAfter;
    RunKeeps(s, traps);
    assert Stored(s, c, false) by {
      NothingStored(s, c);
    }
    StoredAfter(s, traps, c, false);
    var t := After(s, traps).sys;
    var asked := AskingAfter(s, traps, c, false);
    WaitStep(t, user, e, c, asked);
    var o := Step(t, user, e);
    if o.Resumed? && o.sys.cur == c && Asking(t, e, c, asked) && o.frame.eax != MINUS_ONE {
      var k :| 0 <= k < |t.procs| && t.procs[k].parent == t.procs[c].pid && t.procs[k].status == Zombie
               && t.procs[k].pid == o.frame.eax && t.procs[k].exitCode == WaitStatus(t);
      ZombieExited(s, traps, k);
      assert ChildExited(s, traps, c, k, o.frame.eax, WaitStatus(t));
    }
  }

  lemma NothingStored(s: Sys, c: nat)
    ensures Stored(s, c, false)
  {
  }
}

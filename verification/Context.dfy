/** Register contexts over whole runs (kernel/process.c, kernel/restore_esp.asm, kernel/sycall_handeler.asm).

    A trap writes the user's registers to the top of the stack `tss.esp0` names. That is not always the
    current process's own stack: `exit_process` leaves `tss.esp0` on the stack of the process that died. */
module Context {
  import opened Processes
  import opened Scheduling
  import opened ProcessRuns

  /** The registers the trapping process is to find when it next runs: those it trapped with, apart from
      what the system call writes. */
  function Answered(s: Sys, user: Frame, e: Event): Frame
    requires s.cur < |s.procs|
  {
    match e
    case Wait =>
      var k := FindZombie(s.procs, s.procs[s.cur].pid);
      user.(eax := if k != -1 then s.procs[k].pid else MINUS_ONE)
    case Create(ok, frame, handle) => user.(eax := if ok then handle else 0)
    case Fork(ok, userEsp, ebp) => user.(eax := if ok then |s.procs| + 1 else MINUS_ONE)
    case Exec(entry, mapped) => Executed(user, entry, mapped)
    case Answer(eax) => user.(eax := eax)
    case _ => user
  }

  /** The registers a process created by this trap is to start with. */
  function Born(user: Frame, e: Event): seq<Frame> {
    match e
    case Create(ok, frame, handle) => if ok then [frame] else []
    case Fork(ok, userEsp, ebp) => if ok then [user.(eax := 0, userEsp := userEsp, ebp := ebp)] else []
    case _ => []
  }

  /** For each process, what it is to resume with, after one more trap. */
  function Expect(s: Sys, expected: seq<Frame>, user: Frame, e: Event): seq<Frame>
    requires s.cur < |s.procs| == |expected|
  {
    expected[s.cur := Answered(s, user, e)] + Born(user, e)
  }

  /** The next trap overwrites no frame but those of processes in `gone`. */
  ghost predicate StackSafe(s: Sys, gone: set<nat>) {
    match s.esp0
    case Boot => true
    case Of(i) => i < |s.procs| && (i == s.cur || i in gone)
  }

  /** Every process that is not running, nor in `gone`, has its registers in place. */
  ghost predicate InPlace(s: Sys, expected: seq<Frame>, gone: set<nat>) {
    && WellFormed(s) && |expected| == |s.procs| && StackSafe(s, gone)
    && forall i :: 0 <= i < |s.procs| && i != s.cur && i !in gone ==> s.procs[i].regs == expected[i]
  }

  /** Whoever is resumed gets what it is to find, unless it is in `gone`, and so will everybody else. */
  ghost predicate Delivers(o: Outcome, expected: seq<Frame>, gone: set<nat>) {
    o.Resumed? ==>
      InPlace(o.sys, expected, gone) && (o.sys.cur !in gone ==> o.frame == expected[o.sys.cur])
  }

  ghost function Zombies(s: Sys): set<nat> {
    set i | 0 <= i < |s.procs| && s.procs[i].status == Zombie
  }

  /** Every living process that is not running has its registers in place. */
  ghost predicate Faithful(s: Sys, expected: seq<Frame>) {
    InPlace(s, expected, Zombies(s))
  }

  /** Every living process gets what it is to find. */
  ghost predicate Serves(o: Outcome, expected: seq<Frame>) {
    o.Resumed? ==> Delivers(o, expected, Zombies(o.sys))
  }

  predicate FromUserMode(user: Frame) { user.cs % 4 == 3 }

  // ----- When an exit keeps the registers -----

  /** The zombie that an exit of the current process would make ready: its parent, when that has exited
      too; else -1. */
  ghost function Revived(s: Sys): (z: int)
    requires WellFormed(s)
    ensures -1 <= z < s.cur
    ensures z != -1 ==> s.procs[z].status == Zombie && s.procs[s.cur].parent == z + 1
  {
    var parent := s.procs[s.cur].parent;
    if parent != 0 && s.procs[parent - 1].status == Zombie then parent - 1 else -1
  }

  /** Nobody who is ready lies between the current process and its parent `z` around the list. */
  ghost predicate NextInLine(s: Sys, z: nat) {
    forall i :: 0 <= i < |s.procs| && (i < z || s.cur < i) ==> s.procs[i].status != Ready
  }

  /** The exit revives nobody, or a zombie that has its registers: they are in place on its own stack and
      the trap landed elsewhere, or it is the trap that put them there and the zombie runs next. */
  ghost predicate ExitKeeps(s: Sys, expected: seq<Frame>, user: Frame)
    requires WellFormed(s) && |expected| == |s.procs|
  {
    var z := Revived(s);
    z != -1 ==>
      if s.esp0 == Of(z) then user == expected[z] && NextInLine(s, z) else s.procs[z].regs == expected[z]
  }

  /** The state once the user's registers are pushed: nobody else's frame was touched. */
  lemma PushSafe(s: Sys, expected: seq<Frame>, gone: set<nat>, user: Frame)
    requires InPlace(s, expected, gone)
    ensures var s1 := WithRegs(s, user);
      && s1.cur == s.cur && s1.esp0 == s.esp0 && s1.ticks == s.ticks && |s1.procs| == |s.procs|
      && InPlace(s1, expected, gone) && Regs(s1) == user
      && (forall i :: 0 <= i < |s.procs| ==> SameBut(s.procs[i], s1.procs[i]))
  {
  }

  /** What the handler does to the table before it switches, and to the trap frame. */
  ghost predicate Quietly(s: Sys, s': Sys) {
    && s'.cur == s.cur && s'.esp0 == s.esp0 && |s'.procs| == |s.procs|
    && (forall i :: 0 <= i < |s.procs| ==>
          && s'.procs[i].pid == s.procs[i].pid && s'.procs[i].parent == s.procs[i].parent
          && (s'.procs[i].status == Zombie <==> s.procs[i].status == Zombie)
          && (i != s.cur && s.esp0 != Of(i) ==> s'.procs[i].regs == s.procs[i].regs))
  }

  lemma QuietlyInPlace(s: Sys, s': Sys, expected: seq<Frame>, gone: set<nat>)
    requires InPlace(s, expected, gone) && Quietly(s, s')
    ensures InPlace(s', expected, gone)
  {
  }

  /** A switch to a ready process stores the trap frame and resumes the frame expected. */
  lemma SwitchDelivers(s: Sys, expected: seq<Frame>, gone: set<nat>, next: nat)
    requires InPlace(s, expected, gone) && FromUserMode(Regs(s))
    requires next < |s.procs| && next != s.cur && s.procs[next].status == Ready
    ensures Delivers(ContextSwitch(s, next), expected[s.cur := Regs(s)], gone)
  {
  }

  /** Switching if anybody is ready, else going on. */
  lemma SwitchIfAnyDelivers(s: Sys, expected: seq<Frame>, gone: set<nat>)
    requires InPlace(s, expected, gone) && FromUserMode(Regs(s))
    ensures Delivers(SwitchIfAny(s), expected[s.cur := Regs(s)], gone)
  {
    ScheduleIsNearest(s);
    hide Schedule, Regs;
    if Schedule(s) != -1 {
      SwitchDelivers(s, expected, gone, Schedule(s));
    }
  }

  lemma WakeQuietly(s: Sys)
    requires StackOk(s)
    ensures Quietly(s, WakeProcesses(s)) && Regs(WakeProcesses(s)) == Regs(s)
  {
  }

  lemma BlockQuietly(s: Sys, wake: int, inWait: bool)
    requires s.cur < |s.procs| && StackOk(s) && s.procs[s.cur].status != Zombie
    ensures Quietly(s, Block(s, wake, inWait)) && Regs(Block(s, wake, inWait)) == Regs(s)
  {
  }

  lemma YieldDelivers(s: Sys, expected: seq<Frame>, gone: set<nat>)
    requires InPlace(s, expected, gone) && FromUserMode(Regs(s))
    ensures Delivers(SysYield(s), expected[s.cur := Regs(s)], gone)
  {
    hide Regs, SwitchIfAny, Schedule;
    WakeQuietly(s);
    QuietlyInPlace(s, WakeProcesses(s), expected, gone);
    SwitchIfAnyDelivers(WakeProcesses(s), expected, gone);
  }

  lemma StackInPlace(s: Sys, expected: seq<Frame>, gone: set<nat>)
    requires InPlace(s, expected, gone)
    ensures WellFormed(s) && StackOk(s)
  {
  }

  lemma ClockInPlace(s: Sys, expected: seq<Frame>, gone: set<nat>)
    requires InPlace(s, expected, gone)
    ensures InPlace(CountTick(s), expected, gone) && Regs(CountTick(s)) == Regs(s)
  {
    var s1 := s.(ticks := s.ticks + 1);
    WakeQuietly(s1);
    QuietlyInPlace(s1, WakeProcesses(s1), expected, gone);
  }

  lemma TickDelivers(s: Sys, expected: seq<Frame>, gone: set<nat>)
    requires InPlace(s, expected, gone) && FromUserMode(Regs(s))
    ensures Delivers(Tick(s), expected[s.cur := Regs(s)], gone)
  {
    hide CountTick, SysYield, Regs;
    ClockInPlace(s, expected, gone);
    YieldDelivers(CountTick(s), expected, gone);
  }

  lemma SleepDelivers(s: Sys, expected: seq<Frame>, gone: set<nat>, time: nat)
    requires InPlace(s, expected, gone) && FromUserMode(Regs(s))
    ensures Delivers(SysSleep(s, time), expected[s.cur := Regs(s)], gone)
  {
    hide Regs, SwitchIfAny, Schedule, Deadline;
    var wake := Deadline(s.ticks, time);
    BlockQuietly(s, wake, false);
    QuietlyInPlace(s, Block(s, wake, false), expected, gone);
    SwitchIfAnyDelivers(Block(s, wake, false), expected, gone);
  }

  /** Writing the trap frame touches no frame that is wanted. */
  lemma RegsQuietly(s: Sys, f: Frame)
    requires StackOk(s)
    ensures Quietly(s, WithRegs(s, f)) && Regs(WithRegs(s, f)) == f
  {
  }

  lemma ReturnDelivers(s: Sys, expected: seq<Frame>, gone: set<nat>, f: Frame)
    requires InPlace(s, expected, gone)
    ensures var o := Return(WithRegs(s, f));
      Delivers(o, expected[s.cur := f], gone) && o.sys.cur == s.cur
  {
    RegsQuietly(s, f);
    QuietlyInPlace(s, WithRegs(s, f), expected, gone);
    hide Regs, WithRegs;
  }

  lemma WaitDelivers(s: Sys, expected: seq<Frame>, gone: set<nat>)
    requires InPlace(s, expected, gone) && FromUserMode(Regs(s))
    ensures Delivers(SysWait(s), expected[s.cur := Answered(s, Regs(s), Wait)], gone)
  {
    hide Schedule, WithRegs;
    var k := FindZombie(s.procs, s.procs[s.cur].pid);
    var answer := Answered(s, Regs(s), Wait);
    if k != -1 {
      ReturnDelivers(s, expected, gone, answer);
    } else {
      var blocked := Block(s, s.procs[s.cur].wake, true);
      BlockQuietly(s, s.procs[s.cur].wake, true);
      QuietlyInPlace(s, blocked, expected, gone);
      RegsQuietly(blocked, answer);
      var waiting := WithRegs(blocked, answer);
      QuietlyInPlace(blocked, waiting, expected, gone);
      ScheduleIsNearest(waiting);
      hide Regs;
      if Schedule(waiting) != -1 {
        SwitchDelivers(waiting, expected, gone, Schedule(waiting));
      }
    }
  }

  /** The table once the current process is marked dead and its parent ready. */
  lemma ExitTable(s: Sys, code: int, i: nat)
    requires WellFormed(s) && i < |s.procs|
    ensures var p, q := s.procs[i], Prepared(s, Exit(code)).procs[i];
      && q.pid == p.pid && q.parent == p.parent && q.regs == p.regs
      && (q.status == Zombie <==> (p.status == Zombie && i != Revived(s)) || i == s.cur)
      && (i != s.cur && i + 1 != s.procs[s.cur].parent ==> q.status == p.status)
      && (i + 1 == s.procs[s.cur].parent ==> q.status == Ready)
  {
  }

  /** The zombie revived runs next exactly when it is next in line. */
  lemma RevivedNext(s: Sys, code: int)
    requires WellFormed(s) && Revived(s) != -1
    ensures var next := Schedule(Prepared(s, Exit(code)));
      next != -1 && (next == Revived(s) <==> NextInLine(s, Revived(s)))
  {
    var t, z := Prepared(s, Exit(code)), Revived(s);
    forall i | 0 <= i < |s.procs|
      ensures i != s.cur && i != z ==> t.procs[i].status == s.procs[i].status
      ensures i == z ==> t.procs[i].status == Ready
    {
      ExitTable(s, code, i);
    }
    hide Prepared;
    assert t.procs[z].status == Ready;
    ScheduleIsNearest(t);
  }

  /** What a switch to `next` that leaves `tss.esp0` alone has to meet, after an exit revived `z`. */
  lemma ResumeFaithful(s: Sys, expected: seq<Frame>, t: Sys, z: int, next: nat)
    requires Faithful(s, expected) && -1 <= z < s.cur && (z != -1 ==> s.procs[z].status == Zombie)
    requires |t.procs| == |s.procs| && t.esp0 == s.esp0 && next < |t.procs| && next != s.cur
    requires forall i :: 0 <= i < |s.procs| ==>
               && t.procs[i].pid == s.procs[i].pid && t.procs[i].parent == s.procs[i].parent
               && t.procs[i].regs == s.procs[i].regs
               && (t.procs[i].status == Zombie <==> (s.procs[i].status == Zombie && i != z) || i == s.cur)
    requires t.procs[next].status == Ready
    ensures Serves(Resumed(t.(cur := next), t.procs[next].regs), expected)
            <==> (z != -1 ==> s.procs[z].regs == expected[z] && (s.esp0 == Of(z) ==> next == z))
  {
  }

  /** An exit whose trap is already on the stack. */
  lemma ExitFaithful(s: Sys, expected: seq<Frame>, code: int)
    requires Faithful(s, expected)
    ensures var o, z := SysExit(s, code), Revived(s);
      && (o.Resumed? ==> o.sys.cur != s.cur && s.cur < |o.sys.procs| && o.sys.procs[s.cur].status == Zombie)
      && (Serves(o, expected) <==>
            (z != -1 ==> s.procs[z].regs == expected[z] && (s.esp0 == Of(z) ==> NextInLine(s, z))))
  {
    var t, z := Prepared(s, Exit(code)), Revived(s);
    StackInPlace(s, expected, Zombies(s));
    ScheduleIsNearest(t);
    var o := SysExit(s, code);
    assert o.Resumed? ==> o.sys == t.(cur := Schedule(t)) && o.frame == t.procs[Schedule(t)].regs;
    assert o.Panic? <==> Schedule(t) == -1;
    ExitStack(s, code);
    hide Schedule, Prepared, SysExit, Revived, NextInLine, Faithful;
    if z != -1 { RevivedNext(s, code); }
    forall i | 0 <= i < |s.procs|
      ensures t.procs[i].pid == s.procs[i].pid && t.procs[i].parent == s.procs[i].parent
      ensures t.procs[i].regs == s.procs[i].regs
      ensures t.procs[i].status == Zombie <==> (s.procs[i].status == Zombie && i != z) || i == s.cur
    {
      ExitTable(s, code, i);
    }
    if o.Resumed? {
      assert t.procs[s.cur].status == Zombie;
      ResumeFaithful(s, expected, t, z, Schedule(t));
    }
  }

  lemma ExitStack(s: Sys, code: int)
    requires s.cur < |s.procs|
    ensures Prepared(s, Exit(code)).esp0 == s.esp0
  {
  }

  /** A new process starts with the frame made for it, and disturbs nobody. */
  lemma AddInPlace(s: Sys, expected: seq<Frame>, gone: set<nat>, frame: Frame)
    requires InPlace(s, expected, gone)
    ensures InPlace(Add(s, frame), expected + [frame], gone) && Regs(Add(s, frame)) == Regs(s)
  {
  }

  /** What an exit leaves on whichever stack takes the traps is of a process that has exited. */
  lemma ExitDelivers(s: Sys, expected: seq<Frame>, gone: set<nat>, user: Frame, code: int)
    requires InPlace(s, expected, gone)
    ensures Delivers(SysExit(s, code), expected[s.cur := user], gone + {s.cur})
  {
    var t := Prepared(s, Exit(code));
    ScheduleIsNearest(t);
    var o := SysExit(s, code);
    assert o.Resumed? ==> o.sys == t.(cur := Schedule(t)) && o.frame == t.procs[Schedule(t)].regs;
    ExitStack(s, code);
    hide Schedule, Prepared, SysExit, Revived;
    forall i | 0 <= i < |s.procs|
      ensures t.procs[i].pid == i + 1 && t.procs[i].parent <= i && t.procs[i].regs == s.procs[i].regs
    {
      ExitTable(s, code, i);
    }
  }

  /** Those gone after a trap: whoever exits joins them. */
  ghost function Leaving(s: Sys, gone: set<nat>, e: Event): set<nat> {
    if e.Exit? then gone + {s.cur} else gone
  }

  /** Whatever the trap, whoever has never exited gets exactly the registers expected. */
  lemma StepDelivers(s: Sys, expected: seq<Frame>, gone: set<nat>, user: Frame, e: Event)
    requires InPlace(s, expected, gone) && FromUserMode(user)
    ensures Delivers(Step(s, user, e), Expect(s, expected, user, e), Leaving(s, gone, e))
  {
    PushSafe(s, expected, gone, user);
    var s1 := WithRegs(s, user);
    assert expected[s.cur := Answered(s, user, e)] + [] == expected[s.cur := Answered(s, user, e)];
    if e.Create? || e.Fork? {
      hide WithRegs, Regs, InPlace;
      BirthDelivers(s, s1, expected, gone, user, e);
    } else {
      assert Expect(s, expected, user, e) == expected[s.cur := Answered(s, user, e)];
      hide WithRegs, Regs, Answered;
      DispatchDelivers(s, s1, expected, gone, user, e);
    }
  }

  lemma BirthDelivers(s: Sys, s1: Sys, expected: seq<Frame>, gone: set<nat>, user: Frame, e: Event)
    requires s.cur < |s.procs| == |expected| && (e.Create? || e.Fork?)
    requires InPlace(s1, expected, gone) && Regs(s1) == user && s1.cur == s.cur && |s1.procs| == |s.procs|
    ensures Delivers(Dispatch(s1, e), Expect(s, expected, user, e), gone)
  {
    var answer := Answered(s, user, e);
    match e {
      case Create(ok, frame, handle) => CreateDelivers(s1, expected, gone, frame, ok, answer);
      case Fork(ok, userEsp, ebp) =>
        CreateDelivers(s1, expected, gone, user.(eax := 0, userEsp := userEsp, ebp := ebp), ok, answer);
    }
    AddRegs(s1, answer);
    hide WithRegs, Regs, InPlace;
  }

  lemma AddRegs(s: Sys, f: Frame)
    requires WellFormed(s)
    ensures forall g: Frame :: Regs(Add(s, g)) == Regs(s)
  {
  }

  lemma DispatchDelivers(s: Sys, s1: Sys, expected: seq<Frame>, gone: set<nat>, user: Frame, e: Event)
    requires s.cur < |s.procs| == |expected| && !e.Create? && !e.Fork? && FromUserMode(user)
    requires InPlace(s1, expected, gone) && Regs(s1) == user && s1.cur == s.cur && SameTable(s.procs, s1.procs)
    ensures Delivers(Dispatch(s1, e), expected[s.cur := Answered(s, user, e)], Leaving(s, gone, e))
  {
    var answer := Answered(s, user, e);
    StackInPlace(s1, expected, gone);
    RegsAgain(s1);
    hide Regs, WithRegs, Tick, SysYield, SysSleep, SysWait, SysExit, SameTable, Add, InPlace;
    match e {
      case Timer => TickDelivers(s1, expected, gone);
      case Yield => YieldDelivers(s1, expected, gone);
      case Sleep(time) => SleepDelivers(s1, expected, gone, time);
      case Wait => WaitStepDelivers(s, s1, expected, gone, user);
      case Exit(code) => ExitDelivers(s1, expected, gone, user, code);
      case Exec(entry, mapped) => ReturnDelivers(s1, expected, gone, answer);
      case Answer(eax) => ReturnDelivers(s1, expected, gone, answer);
      case Quiet => ReturnDelivers(s1, expected, gone, answer);
    }
  }

  lemma RegsAgain(s: Sys)
    requires StackOk(s)
    ensures WithRegs(s, Regs(s)) == s
  {
  }

  lemma WaitStepDelivers(s: Sys, s1: Sys, expected: seq<Frame>, gone: set<nat>, user: Frame)
    requires s.cur < |s.procs| && InPlace(s1, expected, gone) && Regs(s1) == user && FromUserMode(user)
    requires SameTable(s.procs, s1.procs) && s1.cur == s.cur
    ensures Delivers(SysWait(s1), expected[s.cur := Answered(s, user, Wait)], gone)
  {
    var k := FindZombie(s.procs, s.procs[s.cur].pid);
    assert SameBut(s.procs[s.cur], s1.procs[s.cur]);
    SameTableZombie(s.procs, s1.procs, s.procs[s.cur].pid);
    assert k != -1 ==> SameBut(s.procs[k], s1.procs[k]);
    hide SysWait;
    WaitDelivers(s1, expected, gone);
  }

  lemma CreateDelivers(s: Sys, expected: seq<Frame>, gone: set<nat>, frame: Frame, ok: bool, answer: Frame)
    requires InPlace(s, expected, gone)
    ensures var s1 := if ok then Add(s, frame) else s;
      var expected' := expected[s.cur := answer] + (if ok then [frame] else []);
      Delivers(Return(WithRegs(s1, answer)), expected', gone)
  {
    if ok {
      AddInPlace(s, expected, gone, frame);
      ReturnDelivers(Add(s, frame), expected + [frame], gone, answer);
      assert (expected + [frame])[s.cur := answer] == expected[s.cur := answer] + [frame];
    } else {
      ReturnDelivers(s, expected, gone, answer);
      assert expected[s.cur := answer] + [] == expected[s.cur := answer];
    }
  }

  // ----- What exec and a stored context come to, field by field -----

  /** `sys_exec` leaves 13 registers as they were. A refused image changes eax alone, to -1; else the
      process goes on at the entry point with ebp 0, and, if its stack could be mapped, at the stack top. */
  lemma ExecEffect(s: Sys, user: Frame, entry: nat, mapped: bool)
    requires WellFormed(s)
    ensures var o := Step(s, user, Exec(entry, mapped));
      && o.Resumed? && o.sys.cur == s.cur
      && o.frame == user.(eip := o.frame.eip, ebp := o.frame.ebp, userEsp := o.frame.userEsp, eax := o.frame.eax)
      && o.frame.eip == (if entry == 0 then user.eip else entry)
      && o.frame.ebp == (if entry == 0 then user.ebp else 0)
      && o.frame.userEsp == (if entry == 0 || !mapped then user.userEsp else 0xBFFF_F000)
      && o.frame.eax == (if entry == 0 || !mapped then 0xFFFF_FFFF else 0)
  {
  }

  /** `save_context` stores the trap frame for the current process, with the two words of the user stack
      only if the trap came from user mode; for a trap within the kernel those stay as stored before. */
  lemma SaveContextEffect(s: Sys)
    requires s.cur < |s.procs| && StackOk(s)
    ensures var before, f, after := s.procs[s.cur].regs, Regs(s), SaveContext(s).procs[s.cur].regs;
      && f == after.(userEsp := f.userEsp, userSs := f.userSs)
      && (if f.cs % 4 == 3 then after.userEsp == f.userEsp && after.userSs == f.userSs
          else after.userEsp == before.userEsp && after.userSs == before.userSs)
    ensures forall i :: 0 <= i < |s.procs| && i != s.cur ==> SaveContext(s).procs[i] == s.procs[i]
  {
  }

  // ----- One trap, zombies included -----

  /** Only an exit changes who is a zombie. */
  lemma StepZombies(s: Sys, user: Frame, e: Event)
    requires WellFormed(s) && Step(s, user, e).Resumed? && !e.Exit?
    ensures Zombies(Step(s, user, e).sys) == Zombies(s)
  {
    var s' := Step(s, user, e).sys;
    StepCur(s, user, e);
    hide Step, Schedule, Prepared, Seen;
    forall i | 0 <= i < |s'.procs|
      ensures s'.procs[i].status == Zombie <==> i < |s.procs| && s.procs[i].status == Zombie
    {
      if i < |s.procs| {
        StepProc(s, user, e, i);
        SeenZombie(s, e, i);
      }
    }
  }

  lemma SeenZombie(s: Sys, e: Event, i: nat)
    requires WellFormed(s) && i < |s.procs| && !e.Exit?
    ensures Seen(s, e).procs[i].status == Zombie <==> s.procs[i].status == Zombie
  {
  }

  /** What one trap has to meet. */
  ghost predicate Keeps(s: Sys, expected: seq<Frame>, user: Frame, e: Event)
    requires WellFormed(s) && |expected| == |s.procs|
  {
    e.Exit? ==> ExitKeeps(s, expected, user)
  }

  /** Whoever runs next gets exactly the registers expected, and everybody else's stay in place, for
      every trap but an exit; for an exit exactly under `ExitKeeps`. */
  lemma StepFaithful(s: Sys, expected: seq<Frame>, user: Frame, e: Event)
    requires Faithful(s, expected) && FromUserMode(user)
    ensures Serves(Step(s, user, e), Expect(s, expected, user, e)) <==> Keeps(s, expected, user, e)
  {
    if e.Exit? {
      assert Expect(s, expected, user, e) == expected[s.cur := user];
      ExitStepFaithful(s, expected, user, e.code);
    } else {
      StepDelivers(s, expected, Zombies(s), user, e);
      hide Step, Expect;
      if Step(s, user, e).Resumed? {
        StepZombies(s, user, e);
      }
    }
  }

  ghost predicate AllFromUserMode(traps: seq<Trap>) {
    forall k :: 0 <= k < |traps| ==> FromUserMode(traps[k].user)
  }

  lemma ExitStepFaithful(s: Sys, expected: seq<Frame>, user: Frame, code: int)
    requires Faithful(s, expected)
    ensures Serves(Step(s, user, Exit(code)), expected[s.cur := user]) <==> ExitKeeps(s, expected, user)
  {
    PushSafe(s, expected, Zombies(s), user);
    var s1 := WithRegs(s, user);
    forall i | 0 <= i < |s.procs| ensures SameBut(s.procs[i], s1.procs[i]) {
    }
    assert Revived(s1) == Revived(s);
    assert forall z :: NextInLine(s1, z) <==> NextInLine(s, z);
    assert Revived(s) != -1 ==>
        s1.procs[Revived(s)].regs == if s.esp0 == Of(Revived(s)) then user else s.procs[Revived(s)].regs;
    hide WithRegs, SysExit, Faithful, Revived, NextInLine, SameBut;
    ExitFaithful(s1, expected, code);
    DeadExpectsNothing(s1.cur, SysExit(s1, code), expected, user);
  }

  /** What a zombie is expected to resume with is of no account. */
  lemma DeadExpectsNothing(dead: nat, o: Outcome, expected: seq<Frame>, f: Frame)
    requires dead < |expected|
    requires o.Resumed? ==> o.sys.cur != dead && dead < |o.sys.procs| && o.sys.procs[dead].status == Zombie
    ensures Serves(o, expected[dead := f]) <==> Serves(o, expected)
  {
  }

  /** Before the trap is known: an exit keeps the registers whatever they are exactly when it revives
      nobody, or a zombie with its registers in place and traps landing elsewhere. */
  lemma ExitAlwaysFaithful(s: Sys, expected: seq<Frame>, code: int)
    requires Faithful(s, expected)
    ensures (forall user :: FromUserMode(user) ==>
               Serves(Step(s, user, Exit(code)), Expect(s, expected, user, Exit(code))))
            <==> Revived(s) == -1 || (s.esp0 != Of(Revived(s)) && s.procs[Revived(s)].regs == expected[Revived(s)])
  {
    hide Step, Expect, Serves, Revived, NextInLine;
    forall user | FromUserMode(user)
      ensures Serves(Step(s, user, Exit(code)), Expect(s, expected, user, Exit(code))) <==> ExitKeeps(s, expected, user)
    {
      StepFaithful(s, expected, user, Exit(code));
    }
    var zero := Frame(0, 0, 0, 0, 0, 0, 0, 0, 0, 0, 0, 0, 0, 3, 0, 0, 0);
    var one := zero.(eax := 1);
    assert FromUserMode(zero) && FromUserMode(one);
    assert ExitKeeps(s, expected, zero) && ExitKeeps(s, expected, one) ==>
        Revived(s) == -1 || s.esp0 != Of(Revived(s));
  }

  // ----- Whole runs -----

  /** At every resumption of the run, the process resumed gets what it is to find, and so would all the
      others that have not exited. */
  ghost predicate FaithfulRun(s: Sys, expected: seq<Frame>, traps: seq<Trap>)
    requires WellFormed(s) && |expected| == |s.procs|
    decreases |traps|
  {
    traps != [] ==>
      var o := Step(s, traps[0].user, traps[0].event);
      var expected' := Expect(s, expected, traps[0].user, traps[0].event);
      Serves(o, expected') && (o.Resumed? ==> FaithfulRun(o.sys, expected', traps[1..]))
  }

  /** Every exit of the run keeps the registers. */
  ghost predicate ExitsKeep(s: Sys, expected: seq<Frame>, traps: seq<Trap>)
    requires WellFormed(s) && |expected| == |s.procs|
    decreases |traps|
  {
    traps != [] ==>
      var o := Step(s, traps[0].user, traps[0].event);
      var expected' := Expect(s, expected, traps[0].user, traps[0].event);
      && Keeps(s, expected, traps[0].user, traps[0].event)
      && (o.Resumed? ==>
            (StepExpects(s, expected, traps[0].user, traps[0].event);
             ExitsKeep(o.sys, expected', traps[1..])))
  }

  lemma StepExpects(s: Sys, expected: seq<Frame>, user: Frame, e: Event)
    requires WellFormed(s) && |expected| == |s.procs| && Step(s, user, e).Resumed?
    ensures WellFormed(Step(s, user, e).sys) && |Expect(s, expected, user, e)| == |Step(s, user, e).sys.procs|
  {
    StepKeeps(s, user, e);
    StepLength(s, user, e);
    hide Step;
  }

  lemma StepLength(s: Sys, user: Frame, e: Event)
    requires WellFormed(s) && Step(s, user, e).Resumed?
    ensures |Step(s, user, e).sys.procs| == |s.procs| + |Born(user, e)|
  {
    StepShape(s, user, e);
    hide Schedule, SameBut;
  }

  /** Over any run from user mode, every process is resumed with exactly the 17 registers it last trapped
      with, apart from those its system call wrote, and `tss.esp0` names the boot stack, the current
      process's stack or a zombie's, if and only if every exit of the run meets `ExitKeeps`. */
  lemma {:induction false} RunFaithful(s: Sys, expected: seq<Frame>, traps: seq<Trap>)
    requires Faithful(s, expected) && AllFromUserMode(traps)
    ensures FaithfulRun(s, expected, traps) <==> ExitsKeep(s, expected, traps)
    decreases |traps|
  {
    if traps != [] {
      var o := Step(s, traps[0].user, traps[0].event);
      StepFaithful(s, expected, traps[0].user, traps[0].event);
      hide Step, Expect;
      if Keeps(s, expected, traps[0].user, traps[0].event) && o.Resumed? {
        RunFaithful(o.sys, Expect(s, expected, traps[0].user, traps[0].event), traps[1..]);
      }
    }
  }

  // ----- Process by process -----

  /** At every resumption of the run, a process that has never exited gets what it is to find, and
      `tss.esp0` names the boot stack or that of the current process or one that has exited. */
  ghost predicate DeliveringRun(s: Sys, expected: seq<Frame>, gone: set<nat>, traps: seq<Trap>)
    requires WellFormed(s) && |expected| == |s.procs|
    decreases |traps|
  {
    traps != [] ==>
      var o := Step(s, traps[0].user, traps[0].event);
      var expected' := Expect(s, expected, traps[0].user, traps[0].event);
      var gone' := Leaving(s, gone, traps[0].event);
      Delivers(o, expected', gone') && (o.Resumed? ==> DeliveringRun(o.sys, expected', gone', traps[1..]))
  }

  /** That holds of every run from user mode, whatever becomes of those that exit. */
  lemma {:induction false} RunDelivers(s: Sys, expected: seq<Frame>, gone: set<nat>, traps: seq<Trap>)
    requires InPlace(s, expected, gone) && AllFromUserMode(traps)
    ensures DeliveringRun(s, expected, gone, traps)
    decreases |traps|
  {
    if traps != [] {
      var o := Step(s, traps[0].user, traps[0].event);
      StepDelivers(s, expected, gone, traps[0].user, traps[0].event);
      hide Step, Expect;
      if o.Resumed? {
        RunDelivers(o.sys, Expect(s, expected, traps[0].user, traps[0].event), Leaving(s, gone, traps[0].event),
                    traps[1..]);
      }
    }
  }
}

/** Properties of whole runs of the process engine: fairness, wakeups, deadlines, and no panic. */
module Scheduling {
  import opened Processes

  // ----- The scheduler picks the next ready process around the list -----

  /** How many list places lie from `i` forward to `j`, wrapping at the end of a list of `n`. */
  function Distance(n: nat, i: nat, j: nat): nat
    requires i < n && j < n
  {
    if j >= i then j - i else j + n - i
  }

  /** `schedule` returns the ready process nearest after the current one, and NULL exactly when no
      process other than the current one is ready. */
  lemma ScheduleIsNearest(s: Sys)
    requires s.cur < |s.procs|
    ensures Schedule(s) == -1 <==> forall i :: 0 <= i < |s.procs| && i != s.cur ==> s.procs[i].status != Ready
    ensures Schedule(s) != -1 ==> Schedule(s) != s.cur && s.procs[Schedule(s)].status == Ready
    ensures Schedule(s) != -1 ==>
              forall i :: 0 <= i < |s.procs| && i != s.cur && s.procs[i].status == Ready ==>
                Distance(|s.procs|, s.cur, Schedule(s)) <= Distance(|s.procs|, s.cur, i)
  {
  }

  // ----- A step without its registers -----

  /** Equal but for saved registers. */
  ghost predicate SameBut(p: Proc, q: Proc) {
    q == p.(regs := q.regs)
  }

  ghost predicate SameTable(procs: seq<Proc>, procs': seq<Proc>) {
    |procs| == |procs'| && forall i :: 0 <= i < |procs| ==> SameBut(procs[i], procs'[i])
  }

  /** The trap reaches the scheduler. */
  ghost predicate Decides(s: Sys, e: Event)
    requires s.cur < |s.procs|
  {
    e.Timer? || e.Yield? || e.Sleep? || e.Exit? || (e.Wait? && FindZombie(s.procs, s.procs[s.cur].pid) == -1)
  }

  /** The process table and clock the scheduler sees. */
  function Prepared(s: Sys, e: Event): (t: Sys)
    requires s.cur < |s.procs|
    ensures |t.procs| == |s.procs| && t.cur == s.cur
  {
    match e
    case Timer => WakeProcesses(CountTick(s))
    case Yield => WakeProcesses(s)
    case Sleep(time) => Block(s, Deadline(s.ticks, time), false)
    case Wait => Block(s, s.procs[s.cur].wake, true)
    case Exit(code) => Dead(s, code)
    case _ => s
  }

  ghost predicate StackOk(s: Sys) {
    s.esp0.Of? ==> s.esp0.index < |s.procs|
  }

  /** What any trap does, registers aside: a trap that reaches the scheduler switches to the process it
      picks, or goes on when there is none (`sys_wait` and `exit_process` halt the machine instead);
      any other trap leaves every process as it was, and may append a ready child of the current one. */
  ghost predicate Shape(s: Sys, e: Event, o: Outcome)
    requires s.cur < |s.procs|
  {
    var t := Prepared(s, e);
    var next := Schedule(t);
    if Decides(s, e) && next == -1 && (e.Wait? || e.Exit?) then
      o == Panic
    else
      && o.Resumed?
      && StackOk(o.sys)
      && (if Decides(s, e) then
            && SameTable(t.procs, o.sys.procs)
            && o.sys.cur == (if next == -1 then s.cur else next)
            && o.sys.ticks == t.ticks
          else
            && |s.procs| <= |o.sys.procs| <= |s.procs| + (if e.Create? || e.Fork? then 1 else 0)
            && SameTable(s.procs, o.sys.procs[..|s.procs|])
            && (forall i :: |s.procs| <= i < |o.sys.procs| ==>
                  && o.sys.procs[i].status == Ready && o.sys.procs[i].wake == 0
                  && o.sys.procs[i].pid == i + 1 && o.sys.procs[i].parent == s.procs[s.cur].pid)
            && o.sys.cur == s.cur && o.sys.ticks == s.ticks)
  }

  lemma SameTableFirstReady(procs: seq<Proc>, procs': seq<Proc>, lo: nat, hi: nat)
    requires SameTable(procs, procs') && lo <= hi <= |procs|
    ensures FirstReady(procs, lo, hi) == FirstReady(procs', lo, hi)
  {
    var i, j := FirstReady(procs, lo, hi), FirstReady(procs', lo, hi);
    assert i < hi ==> SameBut(procs[i], procs'[i]);
    assert j < hi ==> SameBut(procs[j], procs'[j]);
  }

  lemma SameTableSchedule(s: Sys, s': Sys)
    requires s.cur < |s.procs| && s'.cur == s.cur && SameTable(s.procs, s'.procs)
    ensures Schedule(s) == Schedule(s')
  {
    SameTableFirstReady(s.procs, s'.procs, s.cur + 1, |s.procs|);
    SameTableFirstReady(s.procs, s'.procs, 0, s.cur);
  }

  lemma SameTableZombie(procs: seq<Proc>, procs': seq<Proc>, pid: nat)
    requires SameTable(procs, procs')
    ensures FindZombie(procs, pid) == FindZombie(procs', pid)
  {
    var i, j := FindZombie(procs, pid), FindZombie(procs', pid);
    assert i != -1 ==> SameBut(procs[i], procs'[i]);
    assert j != -1 ==> SameBut(procs[j], procs'[j]);
  }

  lemma SwitchShape(s: Sys, next: nat)
    requires s.cur < |s.procs| && StackOk(s) && next < |s.procs|
    ensures var o := ContextSwitch(s, next);
      SameTable(s.procs, o.sys.procs) && o.sys.cur == next && o.sys.ticks == s.ticks && StackOk(o.sys)
  {
  }

  /** Writing registers touches nothing else. */
  lemma RegsShape(s: Sys, f: Frame)
    requires StackOk(s)
    ensures var s' := WithRegs(s, f);
      && SameTable(s.procs, s'.procs) && StackOk(s') && s'.esp0 == s.esp0
      && s'.cur == s.cur && s'.ticks == s.ticks && Regs(s') == f
  {
  }

  lemma SameTableTrans(a: seq<Proc>, b: seq<Proc>, c: seq<Proc>)
    requires SameTable(a, b) && SameTable(b, c)
    ensures SameTable(a, c)
  {
    forall i | 0 <= i < |a| ensures SameBut(a[i], c[i]) {
      assert SameBut(a[i], b[i]) && SameBut(b[i], c[i]);
    }
  }

  /** The scheduler, asked on a table equal to `t` but for registers. */
  lemma SwitchIfAnyShape(s: Sys, t: Sys)
    requires s.cur < |s.procs| && StackOk(s) && SameTable(t.procs, s.procs) && t.cur == s.cur && t.ticks == s.ticks
    ensures var o := SwitchIfAny(s);
      && o.Resumed? && SameTable(t.procs, o.sys.procs) && StackOk(o.sys) && o.sys.ticks == t.ticks
      && o.sys.cur == (if Schedule(t) == -1 then t.cur else Schedule(t))
  {
    SameTableSchedule(t, s);
    var next := Schedule(s);
    if next != -1 {
      SwitchShape(s, next);
      SameTableTrans(t.procs, s.procs, ContextSwitch(s, next).sys.procs);
    }
  }

  lemma WakeShape(s: Sys, t: Sys)
    requires SameTable(t.procs, s.procs) && s.ticks == t.ticks
    ensures SameTable(WakeProcesses(t).procs, WakeProcesses(s).procs)
  {
    forall i | 0 <= i < |s.procs| ensures SameBut(WakeProcesses(t).procs[i], WakeProcesses(s).procs[i]) {
      assert SameBut(t.procs[i], s.procs[i]);
    }
  }

  lemma BlockShape(s: Sys, t: Sys, wake: int, inWait: bool)
    requires s.cur < |s.procs| && t.cur == s.cur && SameTable(t.procs, s.procs)
    ensures SameTable(Block(t, wake, inWait).procs, Block(s, wake, inWait).procs)
  {
    forall i | 0 <= i < |s.procs| ensures SameBut(Block(t, wake, inWait).procs[i], Block(s, wake, inWait).procs[i]) {
      assert SameBut(t.procs[i], s.procs[i]);
    }
  }

  lemma TimerShape(s: Sys, t: Sys)
    requires s.cur < |s.procs| && StackOk(s) && SameTable(t.procs, s.procs) && t.cur == s.cur && t.ticks == s.ticks
    ensures Shape(t, Timer, Tick(s)) && Shape(t, Yield, SysYield(s))
  {
    hide Schedule, SwitchIfAny, SameBut;
    var s1, t1 := s.(ticks := s.ticks + 1), t.(ticks := t.ticks + 1);
    WakeShape(s1, t1);
    WakeShape(WakeProcesses(s1), WakeProcesses(t1));
    WakeShape(s, t);
    SwitchIfAnyShape(WakeProcesses(WakeProcesses(s1)), WakeProcesses(WakeProcesses(t1)));
    SwitchIfAnyShape(WakeProcesses(s), WakeProcesses(t));
  }

  lemma SleepShape(s: Sys, t: Sys, time: nat)
    requires s.cur < |s.procs| && StackOk(s) && SameTable(t.procs, s.procs) && t.cur == s.cur && t.ticks == s.ticks
    ensures Shape(t, Sleep(time), SysSleep(s, time))
  {
    hide Schedule, SwitchIfAny, SameBut;
    BlockShape(s, t, Deadline(s.ticks, time), false);
    SwitchIfAnyShape(Block(s, Deadline(s.ticks, time), false), Block(t, Deadline(s.ticks, time), false));
  }

  lemma WaitShape(s: Sys, t: Sys)
    requires s.cur < |s.procs| && StackOk(s) && SameTable(t.procs, s.procs) && t.cur == s.cur && t.ticks == s.ticks
    ensures Shape(t, Wait, SysWait(s))
  {
    assert SameBut(t.procs[s.cur], s.procs[s.cur]);
    hide Schedule, SameBut, WithRegs, Regs;
    SameTableZombie(t.procs, s.procs, s.procs[s.cur].pid);
    var k := FindZombie(s.procs, s.procs[s.cur].pid);
    if k != -1 {
      RegsShape(s, Regs(s).(eax := s.procs[k].pid));
      SameTableTrans(t.procs, s.procs, SetEax(s, s.procs[k].pid).procs);
      var o := SysWait(s);
      assert o.sys.procs[..|t.procs|] == o.sys.procs;
    } else {
      var wake := s.procs[s.cur].wake;
      var blocked := Block(s, wake, true);
      BlockShape(s, t, wake, true);
      RegsShape(blocked, Regs(blocked).(eax := MINUS_ONE));
      var waiting := SetEax(blocked, MINUS_ONE);
      SameTableTrans(Block(t, wake, true).procs, blocked.procs, waiting.procs);
      SameTableSchedule(Block(t, wake, true), waiting);
      var next := Schedule(waiting);
      if next != -1 {
        SwitchShape(waiting, next);
        SameTableTrans(Block(t, wake, true).procs, waiting.procs, ContextSwitch(waiting, next).sys.procs);
      }
    }
  }

  lemma ExitShape(s: Sys, t: Sys, code: int)
    requires s.cur < |s.procs| && StackOk(s) && SameTable(t.procs, s.procs) && t.cur == s.cur && t.ticks == s.ticks
    ensures Shape(t, Exit(code), SysExit(s, code))
  {
    hide Schedule;
    var s1, t1 := Prepared(s, Exit(code)), Prepared(t, Exit(code));
    assert SameBut(t.procs[s.cur], s.procs[s.cur]);
    forall i | 0 <= i < |s.procs| ensures SameBut(t1.procs[i], s1.procs[i]) {
      assert SameBut(t.procs[i], s.procs[i]);
    }
    hide SameBut;
    SameTableSchedule(t1, s1);
  }

  /** Traps that stay away from the scheduler. */
  lemma ReturnShape(s: Sys, t: Sys, e: Event)
    requires s.cur < |s.procs| && StackOk(s) && SameTable(t.procs, s.procs) && t.cur == s.cur && t.ticks == s.ticks
    requires e.Exec? || e.Answer? || e.Quiet? || e.Create? || e.Fork?
    ensures Shape(t, e, Dispatch(s, e))
  {
    var o := Dispatch(s, e);
    forall i | 0 <= i < |s.procs| ensures SameBut(t.procs[i], o.sys.procs[i]) {
      assert SameBut(t.procs[i], s.procs[i]);
    }
    assert SameBut(t.procs[s.cur], s.procs[s.cur]);
  }

  lemma StepShape(s: Sys, user: Frame, e: Event)
    requires s.cur < |s.procs| && StackOk(s)
    ensures Shape(s, e, Step(s, user, e))
  {
    RegsShape(s, user);
    var s1 := WithRegs(s, user);
    hide SameTable, Shape, Tick, SysYield, SysSleep, SysWait, SysExit;
    match e {
      case Timer => TimerShape(s1, s);
      case Yield => TimerShape(s1, s);
      case Sleep(time) => SleepShape(s1, s, time);
      case Wait => WaitShape(s1, s);
      case Exit(code) => ExitShape(s1, s, code);
      case _ => ReturnShape(s1, s, e);
    }
  }

  /** The table after a trap, registers aside and new processes apart. */
  ghost function Seen(s: Sys, e: Event): (t: Sys)
    requires s.cur < |s.procs|
    ensures |t.procs| == |s.procs|
  {
    if Decides(s, e) then Prepared(s, e) else s
  }

  /** What becomes of process `i` in a trap. */
  lemma StepProc(s: Sys, user: Frame, e: Event, i: nat)
    requires s.cur < |s.procs| && StackOk(s) && Step(s, user, e).Resumed? && i < |s.procs|
    ensures i < |Step(s, user, e).sys.procs| && SameBut(Seen(s, e).procs[i], Step(s, user, e).sys.procs[i])
  {
    StepShape(s, user, e);
    hide Step, Prepared, SameBut, Decides, Schedule;
    var s' := Step(s, user, e).sys;
    if !Decides(s, e) {
      assert s'.procs[..|s.procs|][i] == s'.procs[i];
    }
  }

  /** Who runs after a trap. */
  lemma StepCur(s: Sys, user: Frame, e: Event)
    requires s.cur < |s.procs| && StackOk(s)
    ensures var o := Step(s, user, e);
      var next := Schedule(Prepared(s, e));
      && (o.Panic? <==> Decides(s, e) && next == -1 && (e.Wait? || e.Exit?))
      && (o.Resumed? ==>
            && o.sys.cur == (if Decides(s, e) && next != -1 then next else s.cur)
            && o.sys.ticks == s.ticks + (if e.Timer? then 1 else 0)
            && StackOk(o.sys)
            && |s.procs| <= |o.sys.procs| <= |s.procs| + (if e.Create? || e.Fork? then 1 else 0)
            && (forall i :: |s.procs| <= i < |o.sys.procs| ==>
                  && o.sys.procs[i].status == Ready && o.sys.procs[i].wake == 0
                  && o.sys.procs[i].pid == i + 1 && o.sys.procs[i].parent == s.procs[s.cur].pid))
  {
    StepShape(s, user, e);
    PreparedTicks(s, e);
    hide Step, Prepared, SameBut, Schedule, FindZombie;
  }

  lemma PreparedTicks(s: Sys, e: Event)
    requires s.cur < |s.procs|
    ensures Prepared(s, e).ticks == s.ticks + (if e.Timer? then 1 else 0)
  {
  }

  /** What the trap itself does to process `i`, before anyone is picked. */
  lemma SeenProc(s: Sys, e: Event, i: nat)
    requires WellFormed(s) && i < |s.procs|
    ensures var p, q := s.procs[i], Seen(s, e).procs[i];
      && q.pid == p.pid && q.parent == p.parent
      && (p.status == Ready && i != s.cur ==> q.status == Ready)
      && (p.status == Ready && !e.Sleep? && !e.Wait? && !e.Exit? ==> q.status == Ready)
      && (q.status == Zombie ==> p.status == Zombie || (i == s.cur && e.Exit?))
  {
  }
}

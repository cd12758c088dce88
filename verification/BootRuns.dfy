/** Runs from boot (kernel/kernel.c): the states the process engine starts in meet the invariants of the
    other modules, and two runs that end where one might not expect. */
module BootRuns {
  import opened Processes
  import opened Scheduling
  import opened ProcessRuns
  import ProcessWaits
  import UserWait
  import opened Context

  /** No ELF process could be made: `user_main` is alone. */
  function Alone(main: Frame, ticks: nat, boot: Frame): Sys {
    Sys([Proc(1, 0, Ready, 0, 0, main, false)], 0, ticks, Boot, boot)
  }

  /** The ELF process came first and is current; `user_main` is its child. */
  function Ordinary(elf: Frame, main: Frame, ticks: nat, boot: Frame): Sys {
    Sys([Proc(1, 0, Ready, 0, 0, elf, false), Proc(2, 1, Ready, 0, 0, main, false)], 0, ticks, Boot, boot)
  }

  /** Both meet the invariants, with traps landing on the boot stack; nobody has exited; and every process,
      the one that `restore_esp` starts included, has its first registers in place. */
  lemma BootFaithful(elf: Frame, main: Frame, ticks: nat, boot: Frame)
    ensures var s := Alone(main, ticks, boot);
      && Faithful(s, [main]) && InPlace(s, [main], {}) && s.procs[s.cur].regs == main
      && ProcessWaits.NoLostWakeup(s) && UserWait.NobodyExited(s)
    ensures var s := Ordinary(elf, main, ticks, boot);
      && Faithful(s, [elf, main]) && InPlace(s, [elf, main], {}) && s.procs[s.cur].regs == elf
      && ProcessWaits.NoLostWakeup(s) && UserWait.NobodyExited(s)
  {
  }

  // ----- A zombie revived with another process's registers -----

  /** The first trap of a run. */
  lemma RunOn(s: Sys, user: Frame, e: Event, next: Sys, f: Frame, traps: seq<Trap>)
    requires WellFormed(s) && Step(s, user, e) == Resumed(next, f)
    ensures WellFormed(next) && After(s, [Trap(user, e)] + traps) == After(next, traps)
  {
    StepKeeps(s, user, e);
    assert ([Trap(user, e)] + traps)[1..] == traps;
    hide Step;
  }

  /** `user_main`, having made a child, exits before it; the child's exit makes `user_main` ready again,
      on whose stack `tss.esp0` still stands. */
  function Revival(a: Frame, b: Frame, c: Frame, d: Frame, child: Frame, handle: nat): seq<Trap> {
    [Trap(a, Yield)] + ([Trap(b, Create(true, child, handle))] + ([Trap(c, Exit(0))] + ([Trap(d, Exit(0))] + [])))
  }

  /** The ELF process, which trapped with `a`, and `user_main`, with `tss.esp0` on its stack. */
  function Pair(a: Frame, main: Frame): Sys {
    Sys([Proc(1, 0, Ready, 0, 0, a, false), Proc(2, 1, Ready, 0, 0, main, false)], 1, 0, Of(1), a)
  }

  /** The same with a child of `user_main`. */
  function Three(a: Frame, main: Frame, status: Status, child: Frame, childStatus: Status, cur: nat): Sys {
    Sys([Proc(1, 0, Ready, 0, 0, a, false), Proc(2, 1, status, 0, 0, main, false),
         Proc(3, 2, childStatus, 0, 0, child, false)], cur, 0, Of(1), a)
  }

  lemma FirstYield(elf: Frame, main: Frame, boot: Frame, a: Frame)
    requires FromUserMode(a)
    ensures Step(Ordinary(elf, main, 0, boot), a, Yield) == Resumed(Pair(a, main), main)
  {
    var s := WithRegs(Ordinary(elf, main, 0, boot), a);
    assert WakeProcesses(s).procs == s.procs;
    ScheduleIsNearest(s);
    hide Schedule, WakeProcesses;
    assert SaveContext(s).procs == Pair(a, main).procs;
  }

  lemma MakeChild(a: Frame, main: Frame, b: Frame, child: Frame, handle: nat)
    ensures var b' := b.(eax := handle);
      Step(Pair(a, main), b, Create(true, child, handle)) == Resumed(Three(a, b', Ready, child, Ready, 1), b')
  {
    var s := Add(WithRegs(Pair(a, main), b), child);
    assert WithRegs(s, b.(eax := handle)).procs == Three(a, b.(eax := handle), Ready, child, Ready, 1).procs;
  }

  lemma ParentExits(a: Frame, b: Frame, c: Frame, child: Frame)
    ensures Step(Three(a, b, Ready, child, Ready, 1), c, Exit(0))
            == Resumed(Three(a, c, Zombie, child, Ready, 2), child)
  {
    var s := Dead(WithRegs(Three(a, b, Ready, child, Ready, 1), c), 0);
    assert s.procs == Three(a, c, Zombie, child, Ready, 2).procs;
    ScheduleIsNearest(s);
    hide Schedule;
  }

  lemma OrphanExits(a: Frame, c: Frame, child: Frame, d: Frame)
    ensures Step(Three(a, c, Zombie, child, Ready, 2), d, Exit(0))
            == Resumed(Three(a, d, Ready, child, Zombie, 0), a)
  {
    var s := Dead(WithRegs(Three(a, c, Zombie, child, Ready, 2), d), 0);
    assert s.procs == Three(a, d, Ready, child, Zombie, 2).procs;
    ScheduleIsNearest(s);
    hide Schedule;
  }

  lemma LastYield(a: Frame, d: Frame, child: Frame, last: Frame)
    requires FromUserMode(last)
    ensures var o := Step(Three(a, d, Ready, child, Zombie, 0), last, Yield);
      o.Resumed? && o.sys.cur == 1 && o.frame == last
  {
    var s := WithRegs(Three(a, d, Ready, child, Zombie, 0), last);
    assert WakeProcesses(s).procs == s.procs;
    ScheduleIsNearest(s);
    hide Schedule, WakeProcesses;
  }

  /** When the ELF process yields next, with registers `last`, `user_main` runs with those, and not
      with the ones it exited with. The ELF process yields where nothing has gone wrong for it. */
  lemma RevivedRunsAstray(elf: Frame, main: Frame, boot: Frame, a: Frame, b: Frame, c: Frame, d: Frame,
                          child: Frame, handle: nat, last: Frame)
    requires FromUserMode(a) && FromUserMode(last)
    ensures var s := Ordinary(elf, main, 0, boot);
      var traps := Revival(a, b, c, d, child, handle);
      && After(s, traps).At?
      && var t := After(s, traps).sys;
         && WellFormed(t) && t.cur == 0
         && var o := Step(t, last, Yield);
            o.Resumed? && o.sys.cur == 1 && o.frame == last
  {
    FirstYield(elf, main, boot, a);
    MakeChild(a, main, b, child, handle);
    var b' := b.(eax := handle);
    ParentExits(a, b', c, child);
    OrphanExits(a, c, child, d);
    LastYield(a, d, child, last);
    hide Step;
    RunOn(Three(a, c, Zombie, child, Ready, 2), d, Exit(0), Three(a, d, Ready, child, Zombie, 0), a, []);
    var rest := [Trap(d, Exit(0))] + [];
    RunOn(Three(a, b', Ready, child, Ready, 1), c, Exit(0), Three(a, c, Zombie, child, Ready, 2), child, rest);
    rest := [Trap(c, Exit(0))] + rest;
    RunOn(Pair(a, main), b, Create(true, child, handle), Three(a, b', Ready, child, Ready, 1), b', rest);
    rest := [Trap(b, Create(true, child, handle))] + rest;
    RunOn(Ordinary(elf, main, 0, boot), a, Yield, Pair(a, main), main, rest);
  }

  // ----- A sleep cut short -----

  lemma SleepFirst(elf: Frame, main: Frame, ticks: nat, boot: Frame, a: Frame, time: nat)
    requires FromUserMode(a)
    ensures Step(Ordinary(elf, main, ticks, boot), a, Sleep(time))
            == Resumed(Sys([Proc(1, 0, Blocked, Deadline(ticks, time), 0, a, false),
                            Proc(2, 1, Ready, 0, 0, main, false)],
                           1, ticks, Of(1), a), main)
  {
    var s := Block(WithRegs(Ordinary(elf, main, ticks, boot), a), Deadline(ticks, time), false);
    ScheduleIsNearest(s);
    hide Schedule;
    assert SaveContext(s).procs
        == [Proc(1, 0, Blocked, Deadline(ticks, time), 0, a, false), Proc(2, 1, Ready, 0, 0, main, false)];
  }

  lemma ThenExit(main: Frame, ticks: nat, a: Frame, wake: int, b: Frame, code: int)
    ensures var s := Sys([Proc(1, 0, Blocked, wake, 0, a, false), Proc(2, 1, Ready, 0, 0, main, false)],
                         1, ticks, Of(1), a);
      Step(s, b, Exit(code))
      == Resumed(Sys([Proc(1, 0, Ready, wake, 0, a, false), Proc(2, 1, Zombie, 0, code, b, false)],
                     0, ticks, Of(1), a), a)
  {
    var s := Sys([Proc(1, 0, Blocked, wake, 0, a, false), Proc(2, 1, Ready, 0, 0, main, false)], 1, ticks, Of(1), a);
    var t := Dead(WithRegs(s, b), code);
    assert t.procs == [Proc(1, 0, Ready, wake, 0, a, false), Proc(2, 1, Zombie, 0, code, b, false)];
    ScheduleIsNearest(t);
    hide Schedule;
  }

  /** The ELF process sleeps for any time; `user_main`, its child, exits; the sleeper runs at the very tick
      it went to sleep, with its deadline, unless it is now or does not fit, still ahead. */
  lemma SleeperRunsEarly(elf: Frame, main: Frame, ticks: nat, boot: Frame, a: Frame, time: nat, b: Frame, code: int)
    requires FromUserMode(a)
    ensures var s := Ordinary(elf, main, ticks, boot);
      var traps := [Trap(a, Sleep(time))] + ([Trap(b, Exit(code))] + []);
      && After(s, traps).At?
      && var t := After(s, traps).sys;
         t.cur == 0 && t.procs != [] && t.procs[0].wake == Deadline(ticks, time) && t.ticks == ticks
         && (time > 0 && ticks + time < 0x8000_0000 ==> t.ticks < t.procs[0].wake)
  {
    SleepFirst(elf, main, ticks, boot, a, time);
    ThenExit(main, ticks, a, Deadline(ticks, time), b, code);
    hide Step;
    var asleep := Sys([Proc(1, 0, Blocked, Deadline(ticks, time), 0, a, false), Proc(2, 1, Ready, 0, 0, main, false)],
                      1, ticks, Of(1), a);
    var awake := Sys([Proc(1, 0, Ready, Deadline(ticks, time), 0, a, false), Proc(2, 1, Zombie, 0, code, b, false)],
                     0, ticks, Of(1), a);
    RunOn(asleep, b, Exit(code), awake, a, []);
    RunOn(Ordinary(elf, main, ticks, boot), a, Sleep(time), asleep, main, [Trap(b, Exit(code))] + []);
  }
}

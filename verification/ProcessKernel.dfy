/** The trap handlers on the kernel's own globals: the process list, the current process, the clock
    and `tss.esp0` (kernel/process.c, kernel/syscall.c, kernel/kernel.c). */
module ProcessKernel {
  import opened P = Processes
  import opened ProcessTable

  class Kernel {
    const table: Table
    var current: Process
    var ticks: nat
    /** Whose stack `tss.esp0` names; null is the boot stack. */
    var esp0: Process?
    var boot: Frame
    ghost var cur: nat
    ghost var stack: Stack

    /** After the first process is created: it is current, and traps still land on the boot stack. */
    constructor (table: Table, first: Process, boot: Frame)
      requires table.Valid() && table.procs == [first]
      ensures Valid() && this.table == table
      ensures Model() == Sys(table.Values(), 0, 0, Boot, boot)
    {
      this.table, current, ticks, esp0, this.boot := table, first, 0, null, boot;
      cur, stack := 0, Boot;
    }

    ghost predicate Valid()
      reads this, table, table.procs
    {
      && table.Valid()
      && cur < |table.procs| && current == table.procs[cur]
      && (match stack case Boot => esp0 == null case Of(i) => i < |table.procs| && esp0 == table.procs[i])
    }

    ghost function Model(): Sys
      reads this, table, table.procs
    {
      Sys(table.Values(), cur, ticks, stack, boot)
    }

    method Schedule() returns (next: Process?, ghost k: int)
      requires Valid()
      ensures k == P.Schedule(Model())
      ensures next == (if k == -1 then null else table.procs[k])
    {
      hide P.FirstReady;
      assert current.next == NextOf(table.procs, cur);
      next, k := table.FirstReady(current.next, null, cur + 1, |table.procs|);
      if next == null {
        next, k := table.FirstReady(table.first, current, 0, cur);
        if next == null {
          k := -1;
        }
      }
    }

    method WakeProcesses()
      requires Valid()
      modifies table.procs
      ensures Valid() && Model() == P.WakeProcesses(old(Model()))
    {
      table.Wake(ticks);
      assert table.Values() == P.WakeProcesses(old(Model())).procs;
    }

    /** The trap frame the handler was given. */
    method TrapFrame() returns (f: Frame)
      requires Valid()
      ensures f == Regs(Model())
    {
      f := if esp0 == null then boot else esp0.regs;
    }

    method StoreTrapFrame(f: Frame)
      requires Valid()
      modifies this`boot, table.procs
      ensures Valid() && Model() == WithRegs(old(Model()), f)
    {
      if esp0 == null {
        boot := f;
      } else {
        table.SetRegs(esp0, f, stack.index);
      }
    }

    method SaveContext()
      requires Valid()
      modifies table.procs
      ensures Valid() && Model() == P.SaveContext(old(Model()))
    {
      var regs := TrapFrame();
      var saved := CopyFrame(current.regs, regs);
      hide Regs;
      table.SetRegs(current, saved, cur);
    }

    /** `save_context`, field by field. */
    static method CopyFrame(before: Frame, regs: Frame) returns (saved: Frame)
      ensures saved == Saved(before, regs)
    {
      saved := before.(gs := regs.gs, fs := regs.fs, es := regs.es, ds := regs.ds);
      saved := saved.(edi := regs.edi, esi := regs.esi, ebp := regs.ebp, esp := regs.esp);
      saved := saved.(ebx := regs.ebx, edx := regs.edx, ecx := regs.ecx, eax := regs.eax);
      saved := saved.(eip := regs.eip, cs := regs.cs, eflags := regs.eflags);
      if regs.cs % 4 == 3 {
        saved := saved.(userEsp := regs.userEsp, userSs := regs.userSs);
      }
    }

    /** The registers `restore_esp` pops are those at the top of the stack of `next`. */
    method ContextSwitch(next: Process, ghost k: nat) returns (frame: Frame)
      requires Valid() && k < |table.procs| && next == table.procs[k]
      modifies this, table.procs
      ensures Valid()
      ensures Resumed(Model(), frame) == P.ContextSwitch(old(Model()), k)
    {
      hide P.SaveContext, table.Valid;
      SaveContext();
      frame := Resume(next, k);
      esp0, stack := next, Of(k);
    }

    method SwitchIfAny() returns (frame: Frame)
      requires Valid()
      modifies this, table.procs
      ensures Valid()
      ensures Resumed(Model(), frame) == P.SwitchIfAny(old(Model()))
    {
      SchedulePicksOther(Model());
      hide P.Schedule, P.ContextSwitch, Regs, table.Valid;
      var next; ghost var k;
      next, k := Schedule();
      if next != null {
        frame := ContextSwitch(next, k);
      } else {
        frame := TrapFrame();
      }
    }

    static lemma SchedulePicksOther(s: Sys)
      requires s.cur < |s.procs|
      ensures P.Schedule(s) != s.cur
    {
    }

    method SysYield() returns (frame: Frame)
      requires Valid()
      modifies this, table.procs
      ensures Valid()
      ensures Resumed(Model(), frame) == P.SysYield(old(Model()))
    {
      hide P.SwitchIfAny, table.Valid;
      WakeProcesses();
      frame := SwitchIfAny();
    }

    method Irq0Handler() returns (frame: Frame)
      requires Valid()
      modifies this, table.procs
      ensures Valid()
      ensures Resumed(Model(), frame) == P.Tick(old(Model()))
    {
      hide P.SysYield, P.CountTick, table.Valid;
      CountTick();
      frame := SysYield();
    }

    method CountTick()
      requires Valid()
      modifies this, table.procs
      ensures Valid() && Model() == P.CountTick(old(Model()))
    {
      hide P.WakeProcesses, table.Valid;
      ticks := ticks + 1;
      WakeProcesses();
    }

    method SysSleep(time: nat) returns (frame: Frame)
      requires Valid()
      modifies this, table.procs
      ensures Valid()
      ensures Resumed(Model(), frame) == P.SysSleep(old(Model()), time)
    {
      hide P.SwitchIfAny, P.Deadline, table.Valid;
      table.Block(current, P.Deadline(ticks, time), false, cur);
      frame := SwitchIfAny();
    }

    /** `status` is what the caller's variable holds afterwards, unless the caller is blocked. */
    method SysWait() returns (panic: bool, frame: Frame, status: int)
      requires Valid()
      modifies this, table.procs
      ensures Valid()
      ensures (if panic then Panic else Resumed(Model(), frame)) == P.SysWait(old(Model()))
      ensures var s := old(Model());
              FindZombie(s.procs, s.procs[s.cur].pid) != -1 ==> status == WaitStatus(s)
    {
      hide P.Schedule, P.ContextSwitch, Regs, WithRegs;
      panic, status := false, 0;
      var p; ghost var z;
      assert current.pid == table.Values()[cur].pid;
      p, z := table.FindZombie(current.pid);
      if p != null {
        assert table.Values()[z] == p.Value();
        status := p.exitCode;
        frame := Answer(p.pid);
      } else {
        table.Block(current, current.wake, true, cur);
        frame := Answer(MINUS_ONE);
        panic, frame := SwitchOrPanic();
      }
    }

    /** `regs->eax = value`. */
    method Answer(value: nat) returns (frame: Frame)
      requires Valid()
      modifies this`boot, table.procs
      ensures Valid() && Model() == SetEax(old(Model()), value) && frame == Regs(Model())
    {
      var f := TrapFrame();
      StoreTrapFrame(f.(eax := value));
      frame := TrapFrame();
    }

    method SwitchOrPanic() returns (panic: bool, frame: Frame)
      requires Valid()
      modifies this, table.procs
      ensures Valid()
      ensures var s := old(Model());
              (if panic then Panic else Resumed(Model(), frame))
              == if P.Schedule(s) == -1 then Panic else P.ContextSwitch(s, P.Schedule(s))
    {
      SchedulePicksOther(Model());
      hide P.Schedule, P.ContextSwitch, table.Valid;
      panic, frame := false, boot;
      var next; ghost var k;
      next, k := Schedule();
      if next == null {
        panic := true;
      } else {
        frame := ContextSwitch(next, k);
      }
    }

    /** `sys_exit` and `exit_process`; `tss.esp0` stays where it is. */
    method SysExit(code: int) returns (panic: bool, frame: Frame)
      requires Valid()
      modifies this, table.procs
      ensures Valid()
      ensures (if panic then Panic else Resumed(Model(), frame)) == P.SysExit(old(Model()), code)
    {
      hide P.Schedule, P.Dead, table.Valid;
      Die(code);
      var next; ghost var k;
      next, k := Schedule();
      panic, frame := false, boot;
      if next == null {
        panic := true;
      } else {
        frame := Resume(next, k);
      }
    }

    method Die(code: int)
      requires Valid()
      modifies table.procs
      ensures Valid() && Model() == P.Dead(old(Model()), code)
    {
      hide MakeReady, table.Valid;
      table.Bury(current, code, cur);
    }

    /** `restore_esp`: go on with `next`, whose registers are at the top of its stack. */
    method Resume(next: Process, ghost k: nat) returns (frame: Frame)
      requires Valid() && k < |table.procs| && next == table.procs[k]
      modifies this`current, this`cur
      ensures Valid() && Model() == old(Model()).(cur := k) && frame == Model().procs[k].regs
    {
      hide table.Valid;
      current, cur := next, k;
      frame := next.regs;
      assert frame == table.Values()[k].regs;
    }

    /** `sys_create_process` once memory for the process has been had. */
    method SysCreateProcess(start: Frame, handle: nat) returns (frame: Frame)
      requires Valid()
      modifies this, table, table.procs
      ensures Valid()
      ensures Model() == SetEax(Add(old(Model()), start), handle) && frame == Regs(Model())
    {
      hide Regs, WithRegs;
      assert current.pid == table.Values()[cur].pid;
      var p := Create(start);
      frame := Answer(handle);
    }

    /** `sys_fork` once the child's memory has been had and its user stack copied: the child starts
        with the trap frame, 0 in eax, and its own stack and frame pointers. */
    method SysFork(userEsp: nat, ebp: nat) returns (frame: Frame)
      requires Valid()
      modifies this, table, table.procs
      ensures Valid()
      ensures var s := old(Model());
              Model() == SetEax(Add(s, Regs(s).(eax := 0, userEsp := userEsp, ebp := ebp)), |s.procs| + 1)
      ensures frame == Regs(Model())
    {
      hide Regs, WithRegs, Add, SetEax, table.Valid;
      var f := TrapFrame();
      var child := Create(f.(eax := 0, userEsp := userEsp, ebp := ebp));
      frame := Answer(child.pid);
    }

    method Create(start: Frame) returns (p: Process)
      requires Valid()
      modifies this, table, table.procs
      ensures Valid() && fresh(p) && table.procs == old(table.procs) + [p]
      ensures Model() == Add(old(Model()), start) && p.pid == |table.procs|
    {
      assert table.Listed(current);
      p := table.Add(current, start);
      assert table.procs[|table.procs| - 1] == p;
    }
  }
}

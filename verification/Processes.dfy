/** The process engine of kernel/process.c, kernel/syscall.c and the timer of kernel/kernel.c.

    Interrupts are off in every handler, so each trap from user mode is one atomic step. `Step` says
    what a trap does to the process table, the saved registers and the kernel stack pointer. */
module Processes {

  datatype Status = Ready | Running | Blocked | Terminated | Zombie

  /** The 17 words the CPU and the trap stubs push, lowest address first. */
  datatype Frame = Frame(gs: nat, fs: nat, es: nat, ds: nat,
                         edi: nat, esi: nat, ebp: nat, esp: nat,
                         ebx: nat, edx: nat, ecx: nat, eax: nat,
                         eip: nat, cs: nat, eflags: nat,
                         userEsp: nat, userSs: nat)

  /** A process. `parent` is the pid of the parent, 0 for none; `regs` is the frame at the top of its
      kernel stack. `inWait` records whether it was `sys_wait` that blocked it last. */
  datatype Proc = Proc(pid: nat, parent: nat, status: Status, wake: int, exitCode: int, regs: Frame, inWait: bool)

  /** Which stack a trap from user mode lands on. */
  datatype Stack = Boot | Of(index: nat)

  /** The list of processes in creation order, the current one, the clock, and `tss.esp0`. */
  datatype Sys = Sys(procs: seq<Proc>, cur: nat, ticks: nat, esp0: Stack, boot: Frame)

  const MINUS_ONE: nat := 0xFFFF_FFFF

  // ----- Well-formed systems -----

  /** Pids count creations and ascend along the list; every parent comes before its children. */
  ghost predicate WellFormed(s: Sys) {
    && s.cur < |s.procs|
    && (s.esp0.Of? ==> s.esp0.index < |s.procs|)
    && (forall i :: 0 <= i < |s.procs| ==> s.procs[i].pid == i + 1 && s.procs[i].parent <= i)
    && s.procs[s.cur].status != Zombie
  }

  // ----- Trap frames -----

  /** The frame the handler was given: the top of the stack the trap landed on. */
  function Regs(s: Sys): Frame
    requires s.esp0.Of? ==> s.esp0.index < |s.procs|
  {
    match s.esp0
    case Boot => s.boot
    case Of(i) => s.procs[i].regs
  }

  function WithRegs(s: Sys, f: Frame): Sys
    requires s.esp0.Of? ==> s.esp0.index < |s.procs|
  {
    match s.esp0
    case Boot => s.(boot := f)
    case Of(i) => s.(procs := s.procs[i := s.procs[i].(regs := f)])
  }

  /** What `save_context` stores: the user stack is there to save only when the trap came from user mode. */
  function Saved(saved: Frame, regs: Frame): Frame {
    if regs.cs % 4 == 3 then regs else regs.(userEsp := saved.userEsp, userSs := saved.userSs)
  }

  function SaveContext(s: Sys): Sys
    requires s.cur < |s.procs| && (s.esp0.Of? ==> s.esp0.index < |s.procs|)
  {
    s.(procs := s.procs[s.cur := s.procs[s.cur].(regs := Saved(s.procs[s.cur].regs, Regs(s)))])
  }

  // ----- The scheduler -----

  /** The first ready process from `lo` up to but not including `hi`, or `hi`. */
  function FirstReady(procs: seq<Proc>, lo: nat, hi: nat): (i: nat)
    requires lo <= hi <= |procs|
    ensures lo <= i <= hi
    ensures i < hi ==> procs[i].status == Ready
    ensures forall k :: lo <= k < i ==> procs[k].status != Ready
    decreases hi - lo
  {
    if lo == hi || procs[lo].status == Ready then lo else FirstReady(procs, lo + 1, hi)
  }

  /** `schedule`: the next ready process after the current one, around the list; -1 if there is none. */
  function Schedule(s: Sys): (next: int)
    requires s.cur < |s.procs|
    ensures -1 <= next < |s.procs|
  {
    var after := FirstReady(s.procs, s.cur + 1, |s.procs|);
    if after < |s.procs| then after else
      var before := FirstReady(s.procs, 0, s.cur);
      if before < s.cur then before else -1
  }

  function Woken(p: Proc, ticks: nat): Proc {
    if p.status == Blocked && ticks >= p.wake then p.(status := Ready) else p
  }

  function WakeProcesses(s: Sys): (s': Sys)
    ensures |s'.procs| == |s.procs|
    ensures forall i :: 0 <= i < |s.procs| ==> s'.procs[i] == Woken(s.procs[i], s.ticks)
    ensures s' == s.(procs := s'.procs)
  {
    s.(procs := seq(|s.procs|, i requires 0 <= i < |s.procs| => Woken(s.procs[i], s.ticks)))
  }

  /** What a trap leads to: user mode again, with the registers popped, or a halted machine. */
  datatype Outcome = Resumed(sys: Sys, frame: Frame) | Panic

  function ContextSwitch(s: Sys, next: nat): Outcome
    requires s.cur < |s.procs| && next < |s.procs| && (s.esp0.Of? ==> s.esp0.index < |s.procs|)
  {
    var saved := SaveContext(s);
    Resumed(saved.(cur := next, esp0 := Of(next)), saved.procs[next].regs)
  }

  /** Return from the handler without switching. */
  function Return(s: Sys): Outcome
    requires s.esp0.Of? ==> s.esp0.index < |s.procs|
  {
    Resumed(s, Regs(s))
  }

  function SwitchIfAny(s: Sys): Outcome
    requires s.cur < |s.procs| && (s.esp0.Of? ==> s.esp0.index < |s.procs|)
  {
    var next := Schedule(s);
    if next != -1 then ContextSwitch(s, next) else Return(s)
  }

  function SysYield(s: Sys): Outcome
    requires s.cur < |s.procs| && (s.esp0.Of? ==> s.esp0.index < |s.procs|)
  {
    SwitchIfAny(WakeProcesses(s))
  }

  /** The timer interrupt counts the tick and wakes whoever is due. */
  function CountTick(s: Sys): (s': Sys)
    ensures s'.cur == s.cur && s'.esp0 == s.esp0 && |s'.procs| == |s.procs|
  {
    WakeProcesses(s.(ticks := s.ticks + 1))
  }

  /** Then it yields on behalf of the process it interrupted. */
  function Tick(s: Sys): Outcome
    requires s.cur < |s.procs| && (s.esp0.Of? ==> s.esp0.index < |s.procs|)
  {
    SysYield(CountTick(s))
  }

  function Block(s: Sys, wake: int, inWait: bool): Sys
    requires s.cur < |s.procs|
  {
    s.(procs := s.procs[s.cur := s.procs[s.cur].(wake := wake, status := Blocked, inWait := inWait)])
  }

  /** The process's `wake` and the clock it is compared with are signed 32-bit integers. */
  function Signed32(x: nat): int {
    var w := x % 0x1_0000_0000;
    if w < 0x8000_0000 then w else w - 0x1_0000_0000
  }

  function Deadline(ticks: nat, time: nat): int {
    Signed32(ticks + time)
  }

  /** With nobody else ready the caller goes on running, although marked blocked. */
  function SysSleep(s: Sys, time: nat): Outcome
    requires s.cur < |s.procs| && (s.esp0.Of? ==> s.esp0.index < |s.procs|)
  {
    SwitchIfAny(Block(s, Deadline(s.ticks, time), false))
  }

  /** The first exited child of the process with pid `pid`, or -1. */
  function FindZombie(procs: seq<Proc>, pid: nat): (k: int)
    ensures -1 <= k < |procs|
    ensures k == -1 ==> forall i :: 0 <= i < |procs| ==> !(procs[i].parent == pid && procs[i].status == Zombie)
    ensures k != -1 ==> procs[k].parent == pid && procs[k].status == Zombie
    ensures k != -1 ==> forall i :: 0 <= i < k ==> !(procs[i].parent == pid && procs[i].status == Zombie)
  {
    if procs == [] then -1
    else if procs[0].parent == pid && procs[0].status == Zombie then 0
    else
      var k := FindZombie(procs[1..], pid);
      if k == -1 then -1 else k + 1
  }

  function SetEax(s: Sys, value: nat): Sys
    requires s.esp0.Of? ==> s.esp0.index < |s.procs|
  {
    WithRegs(s, Regs(s).(eax := value))
  }

  /** `sys_wait`. It also stores the exit code it finds; see `WaitStatus`. */
  function SysWait(s: Sys): Outcome
    requires s.cur < |s.procs| && (s.esp0.Of? ==> s.esp0.index < |s.procs|)
  {
    var k := FindZombie(s.procs, s.procs[s.cur].pid);
    if k != -1 then Return(SetEax(s, s.procs[k].pid)) else
      var blocked := SetEax(Block(s, s.procs[s.cur].wake, true), MINUS_ONE);
      var next := Schedule(blocked);
      if next == -1 then Panic else ContextSwitch(blocked, next)
  }

  /** The code `sys_wait` stores through the caller's pointer when it returns a pid. */
  function WaitStatus(s: Sys): int
    requires s.cur < |s.procs| && FindZombie(s.procs, s.procs[s.cur].pid) != -1
  {
    s.procs[FindZombie(s.procs, s.procs[s.cur].pid)].exitCode
  }

  /** The process with pid `pid` becomes ready, whatever it was. */
  function MakeReady(procs: seq<Proc>, pid: nat): seq<Proc> {
    if 0 < pid <= |procs| then procs[pid - 1 := procs[pid - 1].(status := Ready)] else procs
  }

  /** The current process dead with its exit code, and its parent ready. */
  function Dead(s: Sys, code: int): (t: Sys)
    requires s.cur < |s.procs|
    ensures |t.procs| == |s.procs| && t.cur == s.cur
  {
    var dead := s.procs[s.cur].(exitCode := code, status := Zombie);
    s.(procs := MakeReady(s.procs[s.cur := dead], dead.parent))
  }

  /** `exit_process` resumes the next process without moving `tss.esp0`. */
  function SysExit(s: Sys, code: int): Outcome
    requires s.cur < |s.procs|
  {
    var s1 := Dead(s, code);
    var next := Schedule(s1);
    if next == -1 then Panic else Resumed(s1.(cur := next), s1.procs[next].regs)
  }

  /** `create_process` and `add_process`: a ready process at the end of the list. */
  function Add(s: Sys, frame: Frame): Sys
    requires s.cur < |s.procs|
  {
    s.(procs := s.procs + [Proc(|s.procs| + 1, s.procs[s.cur].pid, Ready, 0, 0, frame, false)])
  }

  // ----- Traps -----

  /** Why the trap happened. `ok` tells whether memory for a new process could be had; the addresses
      that come from the memory allocator or from copying the user stack are inputs here. */
  datatype Event =
    | Timer
    | Yield
    | Sleep(time: nat)
    | Wait
    | Exit(code: int)
    | Create(ok: bool, frame: Frame, handle: nat)
    | Fork(ok: bool, userEsp: nat, ebp: nat)
    | Exec(entry: nat, mapped: bool)
    | Answer(eax: nat)
    | Quiet

  function Dispatch(s: Sys, e: Event): Outcome
    requires s.cur < |s.procs| && (s.esp0.Of? ==> s.esp0.index < |s.procs|)
  {
    match e
    case Timer => Tick(s)
    case Yield => SysYield(s)
    case Sleep(time) => SysSleep(s, time)
    case Wait => SysWait(s)
    case Exit(code) => SysExit(s, code)
    case Create(ok, frame, handle) =>
      if ok then Return(SetEax(Add(s, frame), handle)) else Return(SetEax(s, 0))
    case Fork(ok, userEsp, ebp) =>
      if ok then Return(SetEax(Add(s, Regs(s).(eax := 0, userEsp := userEsp, ebp := ebp)), |s.procs| + 1))
      else Return(SetEax(s, MINUS_ONE))
    case Exec(entry, mapped) => Return(WithRegs(s, Executed(Regs(s), entry, mapped)))
    case Answer(eax) => Return(SetEax(s, eax))
    case Quiet => Return(s)
  }

  const USER_STACK_TOP: nat := 0xBFFF_F000

  /** The registers `sys_exec` leaves: `entry` is 0 when the image is refused, and `mapped` tells whether
      a frame for the new stack could be had. */
  function Executed(f: Frame, entry: nat, mapped: bool): Frame {
    if entry == 0 then f.(eax := MINUS_ONE)
    else if !mapped then f.(eip := entry, ebp := 0, eax := MINUS_ONE)
    else f.(eip := entry, ebp := 0, userEsp := USER_STACK_TOP, eax := 0)
  }

  /** A trap of the current process with user registers `user`. */
  function Step(s: Sys, user: Frame, e: Event): Outcome
    requires s.cur < |s.procs| && (s.esp0.Of? ==> s.esp0.index < |s.procs|)
  {
    Dispatch(WithRegs(s, user), e)
  }
}

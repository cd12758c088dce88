/** The list of processes as the kernel holds it: records linked by `next`, changed in place
    (kernel/process.c). */
module ProcessTable {
  import opened P = Processes

  class Process {
    const pid: nat
    const parent: Process?
    var status: Status
    var exitCode: int
    var wake: int
    var next: Process?
    var regs: Frame
    ghost var inWait: bool

    constructor (pid: nat, parent: Process?, regs: Frame)
      ensures this.pid == pid && this.parent == parent && this.regs == regs
      ensures status == Ready && exitCode == 0 && wake == 0 && next == null && !inWait
    {
      this.pid, this.parent, this.regs := pid, parent, regs;
      status, exitCode, wake, next, inWait := Ready, 0, 0, null, false;
    }

    ghost function Value(): Proc
      reads this
    {
      Proc(pid, if parent == null then 0 else parent.pid, status, wake, exitCode, regs, inWait)
    }
  }

  ghost function NextOf(procs: seq<Process>, i: nat): Process?
    requires i < |procs|
  {
    if i + 1 < |procs| then procs[i + 1] else null
  }

  class Table {
    var first: Process?
    var processNumber: nat
    ghost var procs: seq<Process>

    /** The `next` fields spell out `procs`, in order of pid, and parents are listed. */
    ghost predicate Valid()
      reads this, procs
    {
      && (forall i, j :: 0 <= i < j < |procs| ==> procs[i] != procs[j])
      && (forall i {:trigger NextOf(procs, i)} :: 0 <= i < |procs| ==> procs[i].next == NextOf(procs, i))
      && (forall i :: 0 <= i < |procs| ==> procs[i].pid == i + 1)
      && (forall i {:trigger Listed(procs[i].parent)} :: 0 <= i < |procs| ==> Listed(procs[i].parent))
      && first == (if procs == [] then null else procs[0])
      && processNumber == |procs| + 1
    }

    ghost predicate Listed(p: Process?)
      reads this
    {
      p == null || (0 < p.pid <= |procs| && p == procs[p.pid - 1])
    }

    ghost function Values(): (values: seq<Proc>)
      reads this, procs
      ensures |values| == |procs|
      ensures forall i :: 0 <= i < |procs| ==> values[i] == procs[i].Value()
    {
      seq(|procs|, i requires 0 <= i < |procs| reads this, procs => procs[i].Value())
    }

    /** A change to the data of one process leaves the list as it is. */
    twostate lemma OneChanged(k: nat)
      requires old(Valid()) && unchanged(this) && k < |procs|
      requires forall i :: 0 <= i < |procs| ==> procs[i].next == old(procs[i].next)
      requires forall i :: 0 <= i < |procs| && i != k ==> procs[i].Value() == old(procs[i].Value())
      ensures Valid() && Values() == old(Values())[k := procs[k].Value()]
    {
      forall i | 0 <= i < |procs| ensures Listed(procs[i].parent) {
        assert old(Listed(procs[i].parent));
      }
    }

    method SetRegs(p: Process, f: Frame, ghost k: nat)
      requires Valid() && k < |procs| && p == procs[k]
      modifies p
      ensures Valid() && Values() == old(Values())[k := old(Values())[k].(regs := f)]
    {
      p.regs := f;
      OneChanged(k);
    }

    method SetStatus(p: Process, status: Status, ghost k: nat)
      requires Valid() && k < |procs| && p == procs[k]
      modifies p
      ensures Valid() && Values() == old(Values())[k := old(Values())[k].(status := status)]
    {
      p.status := status;
      OneChanged(k);
    }

    /** Block a process until `wake`, recording whether a wait or a sleep blocked it. */
    method Block(p: Process, wake: int, ghost inWait: bool, ghost k: nat)
      requires Valid() && k < |procs| && p == procs[k]
      modifies p
      ensures Valid()
      ensures Values() == old(Values())[k := old(Values())[k].(wake := wake, status := Blocked, inWait := inWait)]
    {
      p.wake := wake;
      p.status := Blocked;
      p.inWait := inWait;
      OneChanged(k);
    }

    /** Mark a process dead with its exit code, and its parent ready whatever it was doing. */
    method Bury(p: Process, code: int, ghost k: nat)
      requires Valid() && k < |procs| && p == procs[k]
      modifies procs
      ensures Valid()
      ensures var dead := old(Values())[k].(exitCode := code, status := Zombie);
              Values() == MakeReady(old(Values())[k := dead], dead.parent)
    {
      BuryOnly(p, code, k);
      if p.parent != null {
        ghost var j := p.parent.pid - 1;
        assert Listed(procs[k].parent);
        SetStatus(p.parent, Ready, j);
      }
    }

    method BuryOnly(p: Process, code: int, ghost k: nat)
      requires Valid() && k < |procs| && p == procs[k]
      modifies p
      ensures Valid()
      ensures Values() == old(Values())[k := old(Values())[k].(exitCode := code, status := Zombie)]
    {
      p.exitCode := code;
      p.status := Zombie;
      OneChanged(k);
    }

    /** Following the list from process `k`. */
    lemma Follow(k: nat)
      requires Valid() && k < |procs|
      ensures procs[k].next == if k + 1 < |procs| then procs[k + 1] else null
      ensures first == procs[0]
    {
      assert procs[k].next == NextOf(procs, k);
    }

    lemma Start()
      requires Valid()
      ensures first == if |procs| > 0 then procs[0] else null
    {
    }

    /** The loop of `wake_processes`. */
    method Wake(ticks: nat)
      requires Valid()
      modifies procs
      ensures Valid() && |Values()| == |old(Values())|
      ensures forall i :: 0 <= i < |procs| ==> Values()[i] == Woken(old(Values())[i], ticks)
    {
      Start();
      hide Valid;
      ghost var values := Values();
      var p := first;
      ghost var k := 0;
      while p != null
        invariant 0 <= k <= |procs|
        invariant p == if k < |procs| then procs[k] else null
        invariant Valid()
        invariant forall i :: 0 <= i < k ==> procs[i].Value() == Woken(values[i], ticks)
        invariant forall i :: k <= i < |procs| ==> procs[i].Value() == values[i]
        decreases |procs| - k
      {
        if p.status == Blocked && ticks >= p.wake {
          SetStatus(p, Ready, k);
        }
        Follow(k);
        p, k := p.next, k + 1;
      }
    }

    /** A walk of `schedule`: the first ready process from `p` on, stopping before `stop`. */
    method FirstReady(p: Process?, stop: Process?, ghost lo: nat, ghost hi: nat) returns (found: Process?, ghost k: nat)
      requires Valid() && lo <= hi <= |procs|
      requires p == (if lo < |procs| then procs[lo] else null) && stop == (if hi < |procs| then procs[hi] else null)
      ensures k == P.FirstReady(Values(), lo, hi)
      ensures found == (if k < hi then procs[k] else null)
    {
      ghost var values := Values();
      found, k := p, lo;
      while found != stop
        invariant lo <= k <= hi
        invariant found == if k < |procs| then procs[k] else null
        invariant P.FirstReady(values, lo, hi) == P.FirstReady(values, k, hi)
        decreases hi - k
      {
        assert values[k] == found.Value();
        if found.status == Ready {
          return;
        }
        assert found.next == NextOf(procs, k);
        found, k := found.next, k + 1;
      }
      found := null;
    }

    /** The search of `sys_wait`. */
    method FindZombie(pid: nat) returns (p: Process?, ghost k: int)
      requires Valid() && pid > 0
      ensures k == P.FindZombie(Values(), pid)
      ensures p == (if k == -1 then null else procs[k])
    {
      hide P.FindZombie;
      ghost var values := Values();
      p, k := first, 0;
      while p != null
        invariant 0 <= k <= |procs|
        invariant p == if k < |procs| then procs[k] else null
        invariant forall i :: 0 <= i < k ==> !(values[i].parent == pid && values[i].status == Zombie)
        decreases |procs| - k
      {
        assert values[k] == p.Value();
        if p.parent != null && p.parent.pid == pid && p.status == Zombie {
          return;
        }
        assert p.next == NextOf(procs, k);
        p, k := p.next, k + 1;
      }
      k := -1;
    }

    /** A new record behind the last one extends the list by one. */
    twostate lemma Appended(parent: Process, new p: Process)
      requires old(Valid()) && old(procs) != [] && old(Listed(parent)) && !old(allocated(p))
      requires procs == old(procs) + [p] && first == old(first) && processNumber == old(processNumber) + 1
      requires p.pid == old(processNumber) && p.parent == parent && p.next == null
      requires forall i :: 0 <= i < |old(procs)| ==> procs[i].next == NextOf(procs, i)
      ensures Valid()
    {
      assert NextOf(procs, |procs| - 1) == null;
      forall i | 0 <= i < |procs| ensures Listed(procs[i].parent) {
        assert i < |old(procs)| ==> old(Listed(procs[i].parent));
      }
    }

    twostate lemma AppendedValues(new p: Process)
      requires procs == old(procs) + [p]
      requires forall i :: 0 <= i < |old(procs)| ==> procs[i].Value() == old(procs[i].Value())
      ensures Values() == old(Values()) + [p.Value()]
    {
    }

    /** `create_process` once its memory has been had, with `add_process`. */
    method Add(parent: Process, frame: Frame) returns (p: Process)
      requires Valid() && procs != [] && Listed(parent)
      modifies this, procs
      ensures Valid() && fresh(p) && procs == old(procs) + [p]
      ensures Values() == old(Values()) + [Proc(|old(procs)| + 1, parent.pid, Ready, 0, 0, frame, false)]
    {
      p := new Process(processNumber, parent, frame);
      hide Values;
      processNumber := processNumber + 1;
      LinkTail(p);
      procs := procs + [p];
      Appended(parent, p);
      AppendedValues(p);
    }

    /** The walk of `add_process` to the last process, and the link behind it. */
    method LinkTail(p: Process)
      requires procs != [] && p !in procs && p.next == null
      requires (forall i, j :: 0 <= i < j < |procs| ==> procs[i] != procs[j])
      requires (forall i {:trigger NextOf(procs, i)} :: 0 <= i < |procs| ==> procs[i].next == NextOf(procs, i))
      requires first == procs[0]
      modifies procs
      ensures forall i :: 0 <= i < |procs| ==> procs[i].next == NextOf(procs + [p], i)
      ensures forall i :: 0 <= i < |procs| ==> procs[i].Value() == old(procs[i].Value())
    {
      var tail := first;
      ghost var k := 0;
      assert tail.next == NextOf(procs, 0);
      while tail.next != null
        invariant 0 <= k < |procs| && tail == procs[k] && tail.next == NextOf(procs, k)
        decreases |procs| - k
      {
        tail, k := tail.next, k + 1;
        assert tail.next == NextOf(procs, k);
      }
      tail.next := p;
      forall i | 0 <= i < |procs| ensures procs[i].next == NextOf(procs + [p], i) {
        assert i < k ==> old(procs[i].next) == NextOf(procs, i);
      }
    }
  }
}

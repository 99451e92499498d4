/** The process manager over a round-robin queue: each event does to the objects what Scheduling says
    it does to the abstract state. */
module ProcessManager {
  import opened LinkedList
  import opened Mailbox
  import opened Scheduling

  class Process {
    const pid: nat
    var status: Status
    var kernelStack: int
    var userStack: int

    constructor (pid: nat)
      ensures this.pid == pid && status == Created && kernelStack == 0 && userStack == 0
    {
      this.pid := pid;
      status := Created;
      kernelStack := 0;
      userStack := 0;
    }
  }

  /** The static data of RoundRobin.c. The list is made at once; that no process was added yet is
      told by currentProcess being null. */
  class RoundRobin {
    const processes: List<Process>
    var currentProcess: Process?

    constructor ()
      ensures processes.Valid() && processes.Contents() == [] && currentProcess == null && fresh(processes)
      ensures processes.nodes == []
    {
      processes := new List<Process>();
      currentProcess := null;
    }

    method AddProcess(process: Process)
      requires processes.Valid()
      modifies this, processes, processes.nodes, process`status
      ensures processes.Valid() && processes.Contents() == old(processes.Contents()) + [process]
      ensures process.status == Waiting
      ensures currentProcess == if old(currentProcess) == null then process else old(currentProcess)
      ensures fresh(set n | n in processes.nodes && n !in old(processes.nodes))
    {
      if currentProcess == null {
        currentProcess := process;
      }
      process.status := Waiting;
      processes.Add(process);
    }

    method RemoveProcess(process: Process)
      requires processes.Valid() && process in processes.Contents() && NoDuplicates(processes.Contents())
      modifies processes, processes.nodes, process`status
      ensures processes.Valid() && processes.Contents() == Without(old(processes.Contents()), process)
      ensures process.status == Terminated
      ensures forall n | n in processes.nodes :: n in old(processes.nodes)
    {
      hide *;
      process.status := Terminated;
      var p, k := processes.Remove(process);
      RemovalSplits(old(processes.Contents()), process, k);
    }

    /** The front of the queue becomes the current process and goes to the end. */
    method GetNextProcess() returns (p: Process)
      requires processes.Valid() && processes.Contents() != []
      modifies this, processes, processes.nodes
      ensures processes.Valid() && p == old(processes.Contents())[0] && currentProcess == p
      ensures processes.Contents() == Rotate(old(processes.Contents()), 1)
      ensures fresh(set n | n in processes.nodes && n !in old(processes.nodes))
    {
      hide *;
      RotateOnce(processes.Contents(), 0);
      RotateFront(processes.Contents());
      p := processes.RemoveFromFront();
      processes.Add(p);
      currentProcess := p;
    }
  }

  lemma {:induction false} RemovalSplits<P>(q: seq<P>, p: P, k: nat)
    requires k < |q| && q[k] == p && p !in q[..k]
    ensures Without(q, p) == q[..k] + q[k + 1..]
  {
    if k > 0 {
      assert q[0] in q[..k];
      assert q[1..][..k - 1] == q[1..k];
      RemovalSplits(q[1..], p, k - 1);
      assert q[1..][k..] == q[k + 1..];
    }
  }

  lemma RotateOnce<P>(q: seq<P>, k: nat)
    requires k < |q|
    ensures Rotate(Rotate(q, k), 1) == Rotate(q, k + 1) && Rotate(q, k) != [] && Rotate(q, k)[0] == q[k]
    ensures Rotate(q, 0) == q
  {
  }

  lemma RotateFront<P>(q: seq<P>)
    requires q != []
    ensures Rotate(q, 1) == q[1..] + [q[0]]
  {
  }

  lemma StartSafe<P>(s: Sched<P>, init: P, kernel: P)
    requires s.queue == [] + [init] + [kernel] && init != kernel && s.idle == kernel && s.current == init
    requires s.status.Keys == {init, kernel} && s.status[init] == Waiting && s.status[kernel] == Waiting
    ensures Safe(s) && s.queue == [init, kernel]
  {
  }

  class Manager {
    const kernelProcess: Process
    const scheduler: RoundRobin
    var mailbox: seq<Message<Process>>
    /** All processes that were created and not destroyed. */
    var existing: set<Process>

    ghost function Statuses(): (m: map<Process, Status>)
      reads this, existing
      ensures m.Keys == existing && forall p | p in existing :: m[p] == p.status
    {
      map p | p in existing :: p.status
    }

    ghost predicate Sound()
      reads this, scheduler, scheduler.processes, scheduler.processes.nodes
      ensures Sound() <==> scheduler.processes.Valid() && scheduler.currentProcess != null
    {
      scheduler.processes.Valid() && scheduler.currentProcess != null
    }

    ghost function State(): (s: Sched<Process>)
      requires Sound()
      reads this, scheduler, scheduler.processes, scheduler.processes.nodes, existing
      ensures s.queue == scheduler.processes.Contents() && s.status == Statuses()
      ensures s.current == scheduler.currentProcess && s.idle == kernelProcess
    {
      Sched(scheduler.processes.Contents(), Statuses(), scheduler.currentProcess, kernelProcess)
    }

    ghost predicate Inv()
      reads this, scheduler, scheduler.processes, scheduler.processes.nodes, existing
      ensures Inv() <==> Sound() && Safe(State())
    {
      Sound() && Safe(State())
    }

    /** The first user process and the kernel's idle process are queued before the first switch. */
    constructor (init: Process, kernel: Process)
      requires init != kernel
      modifies init, kernel
      ensures Inv() && fresh(scheduler) && fresh(scheduler.processes) && existing == {init, kernel} && mailbox == []
      ensures State().queue == [init, kernel] && State().current == init && kernelProcess == kernel
      ensures fresh(scheduler.processes.nodes)
    {
      kernelProcess := kernel;
      scheduler := new RoundRobin();
      mailbox := [];
      existing := {};
      new;
      StartUp(init);
    }

    /** The first user process and the idle process join an empty queue. */
    method StartUp(init: Process)
      requires init != kernelProcess && existing == {} && scheduler.currentProcess == null
      requires scheduler.processes.Valid() && scheduler.processes.nodes == []
      modifies this`existing, init`status, kernelProcess`status, scheduler, scheduler.processes
      ensures Inv() && existing == {init, kernelProcess}
      ensures State().queue == [init, kernelProcess] && State().current == init
      ensures fresh(scheduler.processes.nodes)
    {
      hide *;
      Enlist(init);
      assert fresh(scheduler.processes.nodes);
      Enlist(kernelProcess);
      assert fresh(scheduler.processes.nodes);
      StartSafe(State(), init, kernelProcess);
    }

    /** A new process joins the queue. */
    method Enlist(p: Process)
      requires scheduler.processes.Valid()
      modifies this`existing, p`status, scheduler, scheduler.processes, scheduler.processes.nodes
      ensures Sound() && existing == old(existing) + {p} && Statuses() == old(Statuses())[p := Waiting]
      ensures scheduler.processes.Contents() == old(scheduler.processes.Contents()) + [p]
      ensures scheduler.currentProcess == if old(scheduler.currentProcess) == null then p
                else old(scheduler.currentProcess)
      ensures fresh(set n | n in scheduler.processes.nodes && n !in old(scheduler.processes.nodes))
    {
      hide *;
      scheduler.AddProcess(p);
      existing := existing + {p};
    }

    /** The first part of ProcessManager_switch: the current process saves its state and leaves. */
    method LeaveCurrent(context: int)
      requires Inv()
      modifies this`existing, existing
      ensures Sound() && Statuses() == Leave(old(State())) && existing <= old(existing)
      ensures var c := scheduler.currentProcess;
              if c == kernelProcess then c.kernelStack == context
              else c in existing ==> c.userStack == context
      ensures forall p | p in existing && p != scheduler.currentProcess ::
                p.kernelStack == old(p.kernelStack) && p.userStack == old(p.userStack)
    {
      var currentProcess: Process := scheduler.currentProcess;
      if currentProcess == kernelProcess {
        currentProcess.kernelStack := context;
        currentProcess.status := Waiting;
      } else if currentProcess.status == Terminated {
        existing := existing - {currentProcess};
      } else {
        if currentProcess.status != Blocked {
          currentProcess.status := Waiting;
        }
        currentProcess.userStack := context;
      }
    }

    /** A status write to a process that exists. */
    method SetStatus(p: Process, status: Status)
      requires Sound() && p in existing
      modifies p`status
      ensures Sound() && Statuses() == old(Statuses())[p := status]
      ensures scheduler.processes.Contents() == old(scheduler.processes.Contents())
    {
      p.status := status;
    }

    /** The search loop of ProcessManager_switch: it ends at the first process that is not blocked. */
    method FindReady(ghost q: seq<Process>, ghost first: nat) returns (next: Process)
      requires scheduler.processes.Valid() && scheduler.processes.Contents() == q && first < |q|
      requires (forall j | 0 <= j < first :: q[j].status == Blocked) && q[first].status != Blocked
      modifies scheduler, scheduler.processes, scheduler.processes.nodes
      ensures scheduler.processes.Valid() && scheduler.processes.Contents() == Rotate(q, first + 1)
      ensures next == q[first] && scheduler.currentProcess == next
      ensures fresh(set n | n in scheduler.processes.nodes && n !in old(scheduler.processes.nodes))
    {
      hide *;
      ghost var k := 1;
      RotateOnce(q, 0);
      next := scheduler.GetNextProcess();
      while next.status == Blocked
        invariant 1 <= k <= first + 1 && next == q[k - 1] && scheduler.currentProcess == next
        invariant scheduler.processes.Valid() && scheduler.processes.Contents() == Rotate(q, k)
        invariant fresh(set n | n in scheduler.processes.nodes && n !in old(scheduler.processes.nodes))
        decreases first + 1 - k
      {
        assert k - 1 != first;
        RotateOnce(q, k);
        next := scheduler.GetNextProcess();
        k := k + 1;
      }
    }

    /** ProcessManager_switch. The search ends at the idle process at the latest, which is in the queue
        and never blocked. */
    method Switch(context: int)
      requires Inv()
      modifies this`existing, existing, scheduler, scheduler.processes, scheduler.processes.nodes
      ensures Inv() && State() == Scheduling.Switch(old(State()))
      ensures existing <= old(existing)
      ensures fresh(set n | n in scheduler.processes.nodes && n !in old(scheduler.processes.nodes))
      ensures var c := old(scheduler.currentProcess);
              if c == kernelProcess then c.kernelStack == context else c in existing ==> c.userStack == context
      ensures forall p | p in existing && p != old(scheduler.currentProcess) ::
                p.kernelStack == old(p.kernelStack) && p.userStack == old(p.userStack)
    {
      hide *;
      ghost var s := State();
      SwitchIs(s);
      SwitchSafe(s);
      LeaveCurrent(context);
      ghost var first := FirstReady(s.queue, Leave(s));
      AllBlockedBefore(s, Statuses());
      EnterNext(s.queue, first);
      SameSched(State(), Scheduling.Switch(s));
    }

    /** The rest of ProcessManager_switch: the process found runs. */
    method EnterNext(ghost q: seq<Process>, ghost first: nat)
      requires Sound() && scheduler.processes.Contents() == q && first < |q| && q[first] in existing
      requires (forall j | 0 <= j < first :: q[j].status == Blocked) && q[first].status != Blocked
      modifies existing, scheduler, scheduler.processes, scheduler.processes.nodes
      ensures Sound() && Statuses() == old(Statuses())[q[first] := Running]
      ensures scheduler.processes.Contents() == Rotate(q, first + 1) && scheduler.currentProcess == q[first]
      ensures fresh(set n | n in scheduler.processes.nodes && n !in old(scheduler.processes.nodes))
      ensures forall p | p in existing :: p.kernelStack == old(p.kernelStack) && p.userStack == old(p.userStack)
    {
      hide *;
      ghost var status := Statuses();
      var next := FindReady(q, first);
      assert Statuses() == status;
      SetStatus(next, Running);
    }

    /** ProcessManager_blockCurrentProcess, before the interrupt that it forces. */
    method BlockCurrentProcess()
      requires Inv() && Legal(State(), Block)
      modifies existing
      ensures Inv() && State() == Step(old(State()), Block)
    {
      hide *;
      ghost var s := State();
      StepSafe(s, Block);
      StepIs(s);
      var current: Process := scheduler.currentProcess;
      SetStatus(current, Blocked);
      SameSched(State(), Step(s, Block));
    }

    /** A status write from an interrupt handler or a mailbox. */
    method WakeProcess(p: Process)
      requires Inv() && Legal(State(), Wake(p))
      modifies existing
      ensures Inv() && State() == Step(old(State()), Wake(p))
    {
      hide *;
      ghost var s := State();
      StepSafe(s, Wake(p));
      WakeIs(s, p);
      SetStatus(p, Waiting);
      SameSched(State(), Step(s, Wake(p)));
    }

    /** ProcessManager_waitPID. */
    method WaitPID(process: Process)
      requires Inv() && Legal(State(), Block)
      modifies existing, this`mailbox
      ensures Inv() && State() == Step(old(State()), Block)
      ensures mailbox == old(mailbox) + [Message(State().current, process, true)]
    {
      hide *;
      ghost var s := State();
      mailbox := mailbox + [Message(scheduler.currentProcess, process, true)];
      SameSched(State(), s);
      BlockCurrentProcess();
    }

    /** ProcessManager_notify, for the current process. It fails when it writes to a process that is gone,
        and then nothing is said about what it leaves behind. */
    method Notify() returns (ok: bool)
      requires Sound()
      modifies existing, this`mailbox
      ensures ok <==> forall p | p in WokenBy(old(mailbox), old(State().current)) :: p in existing
      ensures Sound() && scheduler.processes.Contents() == old(scheduler.processes.Contents())
      ensures ok ==> Statuses() == Woken(old(Statuses()), Members(WokenBy(old(mailbox), State().current)))
      ensures ok ==> mailbox == Unread(old(mailbox), State().current)
    {
      hide *;
      ghost var q, c, m0 := mailbox, scheduler.currentProcess, Statuses();
      ghost var done: seq<Process> := [];
      NobodyWoken(m0);
      NotifyStart(q, c);
      var i := 0;
      while i < |mailbox|
        invariant 0 <= i && Sound() && Statuses() == Woken(m0, Members(done)) && Notifying(q, c, mailbox, i, done)
        invariant scheduler.processes.Contents() == old(scheduler.processes.Contents())
        invariant forall p | p in done :: p in existing
        decreases |mailbox| - i
      {
        var m := mailbox[i];
        if m.to != scheduler.currentProcess {
          NotifyOver(q, c, mailbox, i, done);
        } else {
          NotifyTake(q, c, mailbox, i, done);
          if m.waiting {
            if m.from !in existing {
              return false;
            }
            SetStatus(m.from, Waiting);
            WokenOne(m0, done, m.from);
          }
          KeptDone(done);
          done := done + (if m.waiting then [m.from] else []);
          mailbox := mailbox[..i] + mailbox[i + 1..];
        }
        i := i + 1;
      }
      NotifyEnd(q, c, mailbox, i, done);
      ok := true;
    }

    /** ProcessManager_killProcess, before the interrupt that it forces: the current process leaves the
        queue, after ProcessManager_notify. */
    method KillProcess() returns (ok: bool)
      requires Inv() && scheduler.currentProcess != kernelProcess && State().current in State().queue
      modifies existing, this`mailbox, scheduler.processes, scheduler.processes.nodes
      ensures ok <==> old(Legal(State(), Kill(Members(WokenBy(mailbox, State().current)))))
      ensures ok ==>
                Inv() && State() == Step(old(State()), Kill(Members(WokenBy(old(mailbox), old(State().current)))))
      ensures ok ==> mailbox == Unread(old(mailbox), old(State().current))
      ensures forall n | n in scheduler.processes.nodes :: n in old(scheduler.processes.nodes)
    {
      hide *;
      ghost var s := State();
      var current: Process := scheduler.currentProcess;
      ghost var woken := WokenBy(mailbox, current);
      ghost var e: Event<Process> := Kill(Members(woken));
      ExitLegal(s, woken);
      if Legal(s, e) {
        StepSafe(s, e);
        KillIs(s, Members(woken));
      }
      ok := Notify();
      if !ok {
        return;
      }
      ghost var m := Statuses();
      scheduler.RemoveProcess(current);
      assert Statuses() == m[current := Terminated];
      SameSched(State(), Step(s, e));
    }

    /** ProcessManager_spawnProcess, once the process is made. */
    method SpawnProcess(p: Process)
      requires Inv() && Legal(State(), Spawn(p))
      modifies this`existing, p, scheduler, scheduler.processes, scheduler.processes.nodes
      ensures Inv() && State() == Step(old(State()), Spawn(p)) && existing == old(existing) + {p}
      ensures fresh(set n | n in scheduler.processes.nodes && n !in old(scheduler.processes.nodes))
    {
      hide *;
      ghost var s := State();
      StepSafe(s, Spawn(p));
      SpawnIs(s, p);
      Enlist(p);
      SameSched(State(), Step(s, Spawn(p)));
    }

    ghost function Machine(): (m: Machine<Process>)
      requires Sound()
      reads this, scheduler, scheduler.processes, scheduler.processes.nodes, existing
      ensures m.sched == State() && m.box == mailbox
    {
      Mailbox.Machine(State(), mailbox)
    }

    /** One command on the objects. */
    method Perform(c: Command<Process>)
      requires Inv() && Allowed(Machine(), c)
      modifies this`existing, this`mailbox, existing, Launched([c])
      modifies scheduler, scheduler.processes, scheduler.processes.nodes
      ensures Inv() && Machine() == Do(old(Machine()), c) && existing <= old(existing) + Launched([c])
      ensures fresh(set n | n in scheduler.processes.nodes && n !in old(scheduler.processes.nodes))
    {
      hide *;
      DoIs(Machine(), c);
      match c
      case Tick(context) => Switch(context);
      case Awake(p) => WakeProcess(p);
      case Sleep => BlockCurrentProcess();
      case WaitFor(to) => WaitPID(to);
      case Exit => var ok := KillProcess();
      case Launch(p) => LaunchedIs(p); SpawnProcess(p);
    }

    /** Any sequence of commands keeps the invariant, and is a run of the state machine. */
    method PerformAll(cs: seq<Command<Process>>)
      requires Inv() && AllAllowed(Machine(), cs)
      modifies this`existing, this`mailbox, existing, Launched(cs)
      modifies scheduler, scheduler.processes, scheduler.processes.nodes
      ensures Inv() && Machine() == DoAll(old(Machine()), cs)
      ensures Run(States(old(Machine()), cs), Events(old(Machine()), cs))
      decreases |cs|
    {
      hide *;
      CommandsRun(Machine(), cs);
      AllAllowedIs(Machine(), cs);
      if cs != [] {
        LaunchedParts(cs);
        Perform(cs[0]);
        PerformAll(cs[1..]);
      }
    }
  }

  ghost function Launched(cs: seq<Command<Process>>): set<Process> {
    set c | c in cs && c.Launch? :: c.p
  }

  lemma LaunchedIs(p: Process)
    ensures Launched([Launch(p)]) == {p}
  {
    assert Launch(p) in [Launch(p)];
  }

  lemma LaunchedParts(cs: seq<Command<Process>>)
    requires cs != []
    ensures Launched(cs) == Launched([cs[0]]) + Launched(cs[1..])
  {
    assert cs == [cs[0]] + cs[1..];
  }
}

/** Round-robin scheduling as a state machine: what each event does to the queue and to the status
    of every process, what all runs keep, and how long a process waits. */
module Scheduling {

  datatype Status = Created | Waiting | Running | Blocked | Terminated

  /** The run queue, front first; the status of every process that exists; the current process and
      the kernel's idle process. */
  datatype Sched<P(==)> = Sched(queue: seq<P>, status: map<P, Status>, current: P, idle: P)

  /** A timer interrupt that switches; a status write that makes a process ready; blocking or
      killing the current process, the latter waking those that wait for it; a new process. */
  datatype Event<P(==)> = Timer | Wake(p: P) | Block | Kill(woken: set<P>) | Spawn(p: P)

  ghost predicate NoDuplicates<P>(q: seq<P>) {
    forall i, j | 0 <= i < j < |q| :: q[i] != q[j]
  }

  /** The queue holds no process twice and none that was terminated, and always the idle process,
      which is never blocked; only the current process may be running. */
  ghost predicate Safe<P>(s: Sched<P>) {
    && NoDuplicates(s.queue) && s.idle in s.queue && s.current in s.status
    && (forall p | p in s.queue :: p in s.status && s.status[p] in {Waiting, Blocked, Running})
    && (forall p | p in s.status && s.status[p] == Running :: p == s.current)
    && s.status[s.idle] != Blocked
  }

  // ------------------------------------------------------------------------- switching

  /** The current process gives up the processor: a killed one is destroyed, a blocked one stays
      blocked, any other waits. */
  function Leave<P>(s: Sched<P>): map<P, Status>
    requires s.current in s.status
  {
    if s.current != s.idle && s.status[s.current] == Terminated then s.status - {s.current}
    else if s.current != s.idle && s.status[s.current] == Blocked then s.status
    else s.status[s.current := Waiting]
  }

  ghost predicate Ready<P>(status: map<P, Status>, p: P) {
    p in status && status[p] != Blocked
  }

  /** The first member of the queue that is not blocked. */
  ghost function FirstReady<P>(q: seq<P>, status: map<P, Status>): (i: nat)
    ensures i <= |q|
    ensures i < |q| ==> Ready(status, q[i])
    ensures forall j | 0 <= j < i :: !Ready(status, q[j])
  {
    if q == [] then 0
    else if Ready(status, q[0]) then 0
    else
      var i := FirstReady(q[1..], status);
      assert forall j | 1 <= j < i + 1 :: q[j] == q[1..][j - 1];
      i + 1
  }

  function Rotate<P>(q: seq<P>, n: nat): seq<P>
    requires n <= |q|
  {
    q[n..] + q[..n]
  }

  lemma IdleReady<P>(s: Sched<P>)
    requires Safe(s)
    ensures FirstReady(s.queue, Leave(s)) < |s.queue|
  {
    var i :| 0 <= i < |s.queue| && s.queue[i] == s.idle;
    assert Ready(Leave(s), s.queue[i]);
  }

  /** ProcessManager_switch: rotate up to the first process that is not blocked, and run it. */
  ghost function Switch<P>(s: Sched<P>): Sched<P>
    requires Safe(s)
  {
    IdleReady(s);
    var status := Leave(s);
    var i := FirstReady(s.queue, status);
    var next := s.queue[i];
    Sched(Rotate(s.queue, i + 1), status[next := Running], next, s.idle)
  }

  // ----------------------------------------------------------------------- all events

  function Without<P(==)>(q: seq<P>, p: P): seq<P> {
    if q == [] then [] else if q[0] == p then q[1..] else [q[0]] + Without(q[1..], p)
  }

  ghost predicate Legal<P>(s: Sched<P>, e: Event<P>) {
    match e
    case Timer => true
    case Wake(p) => p in s.status
    case Block => s.current != s.idle
    case Kill(woken) => s.current != s.idle && s.current in s.queue && woken <= s.status.Keys
    case Spawn(p) => p !in s.status && p !in s.queue
  }

  ghost function Step<P>(s: Sched<P>, e: Event<P>): Sched<P>
    requires Safe(s) && Legal(s, e)
  {
    match e
    case Timer => Switch(s)
    case Wake(p) => s.(status := s.status[p := Waiting])
    case Block => s.(status := s.status[s.current := Blocked])
    case Kill(woken) =>
      s.(queue := Without(s.queue, s.current), status := Woken(s.status, woken)[s.current := Terminated])
    case Spawn(p) => s.(queue := s.queue + [p], status := s.status[p := Waiting])
  }

  function Woken<P>(status: map<P, Status>, woken: set<P>): map<P, Status> {
    map p | p in status :: if p in woken then Waiting else status[p]
  }

  lemma {:induction false} WithoutElements<P>(q: seq<P>, p: P)
    requires NoDuplicates(q)
    ensures NoDuplicates(Without(q, p))
    ensures forall x | x in Without(q, p) :: x in q && x != p
    ensures forall x | x in q && x != p :: x in Without(q, p)
  {
    if q != [] {
      assert q == [q[0]] + q[1..];
      assert forall i | 0 <= i < |q| - 1 :: q[1..][i] == q[i + 1];
      WithoutElements(q[1..], p);
      if q[0] != p {
        var r := Without(q[1..], p);
        assert q[0] !in r;
        assert forall i | 1 <= i < |r| + 1 :: ([q[0]] + r)[i] == r[i - 1];
      }
    }
  }

  /** Rotation neither loses nor duplicates anything. */
  lemma RotateElements<P>(q: seq<P>, n: nat)
    requires n <= |q|
    ensures |Rotate(q, n)| == |q| && multiset(Rotate(q, n)) == multiset(q)
    ensures forall i | 0 <= i < |q| :: Rotate(q, n)[i] == q[if i < |q| - n then i + n else i + n - |q|]
    ensures NoDuplicates(q) ==> NoDuplicates(Rotate(q, n))
    ensures (forall x | x in Rotate(q, n) :: x in q) && (forall x | x in q :: x in Rotate(q, n))
  {
    hide *;
    RotateAt(q, n);
    RotateCounts(q, n);
    if NoDuplicates(q) { RotateDistinct(q, n); }
  }

  lemma RotateAt<P>(q: seq<P>, n: nat)
    requires n <= |q|
    ensures |Rotate(q, n)| == |q|
    ensures forall i | 0 <= i < |q| :: Rotate(q, n)[i] == q[if i < |q| - n then i + n else i + n - |q|]
  {
  }

  lemma RotateCounts<P>(q: seq<P>, n: nat)
    requires n <= |q|
    ensures multiset(Rotate(q, n)) == multiset(q)
    ensures (forall x | x in Rotate(q, n) :: x in q) && (forall x | x in q :: x in Rotate(q, n))
  {
    assert q == q[..n] + q[n..];
    var r := Rotate(q, n);
    assert multiset(r) == multiset(q);
    hide *;
    forall x | x in r ensures x in q {
      assert multiset(r)[x] > 0;
    }
    forall x | x in q ensures x in r {
      assert multiset(q)[x] > 0;
    }
  }

  lemma RotateDistinct<P>(q: seq<P>, n: nat)
    requires n <= |q| && NoDuplicates(q)
    ensures NoDuplicates(Rotate(q, n))
  {
    RotateAt(q, n);
    hide Rotate;
  }

  /** Once the current process has left, nobody runs, and all in the queue wait or are blocked. */
  lemma LeaveFacts<P>(s: Sched<P>)
    requires Safe(s)
    ensures forall p | p in s.queue :: p in Leave(s) && Leave(s)[p] in {Waiting, Blocked}
    ensures forall p | p in Leave(s) :: Leave(s)[p] != Running
    ensures s.idle in Leave(s) && Leave(s)[s.idle] == Waiting
    ensures forall p | p in Leave(s) && p != s.current :: p in s.status && Leave(s)[p] == s.status[p]
  {
    hide NoDuplicates;
    assert s.idle in s.queue;
  }

  lemma SwitchFacts<P>(s: Sched<P>)
    requires Safe(s)
    ensures var s' := Switch(s);
            && s'.idle == s.idle && s'.current in s.queue && s'.current in Leave(s) && Leave(s)[s'.current] == Waiting
            && s'.status == Leave(s)[s'.current := Running]
            && multiset(s'.queue) == multiset(s.queue) && NoDuplicates(s'.queue)
            && |s'.queue| > 0 && s'.queue[|s'.queue| - 1] == s'.current
            && (forall x | x in s'.queue :: x in s.queue) && (forall x | x in s.queue :: x in s'.queue)
  {
    hide *;
    SwitchIs(s);
    SafeQueue(s);
    var i := FirstReady(s.queue, Leave(s));
    RotateElements(s.queue, i + 1);
    ReadyMember(s, s.queue[i]);
  }

  lemma SafeQueue<P>(s: Sched<P>)
    requires Safe(s)
    ensures NoDuplicates(s.queue)
  {
  }

  lemma ReadyMember<P>(s: Sched<P>, p: P)
    requires Safe(s) && p in s.queue && Ready(Leave(s), p)
    ensures p in Leave(s) && Leave(s)[p] == Waiting
  {
    LeaveFacts(s);
  }

  lemma SwitchIs<P>(s: Sched<P>)
    requires Safe(s)
    ensures s.current in s.status
    ensures var i := FirstReady(s.queue, Leave(s));
            && i < |s.queue| && Ready(Leave(s), s.queue[i]) && (forall j | 0 <= j < i :: !Ready(Leave(s), s.queue[j]))
            && Switch(s) == Sched(Rotate(s.queue, i + 1), Leave(s)[s.queue[i] := Running], s.queue[i], s.idle)
  {
    IdleReady(s);
  }

  lemma MakeSafe<P>(s: Sched<P>)
    requires NoDuplicates(s.queue) && s.idle in s.queue && s.current in s.status
    requires forall p | p in s.queue :: p in s.status && s.status[p] in {Waiting, Blocked, Running}
    requires forall p | p in s.status && s.status[p] == Running :: p == s.current
    requires s.status[s.idle] != Blocked
    ensures Safe(s)
  {
  }

  lemma SwitchSafe<P>(s: Sched<P>)
    requires Safe(s)
    ensures Safe(Switch(s))
  {
    LeaveFacts(s);
    SwitchFacts(s);
    var s' := Switch(s);
    assert s.idle in s.queue;
    hide *;
    MakeSafe(s');
  }

  /** The chosen process was waiting, runs now, and is the last of the queue; nobody else's status
      changed but that of the process that left. */
  lemma SwitchPicks<P>(s: Sched<P>)
    requires Safe(s)
    ensures var s' := Switch(s);
            && s'.current in s.queue && s'.current in Leave(s) && Leave(s)[s'.current] == Waiting
            && s'.current in s'.status && s'.status[s'.current] == Running
            && |s'.queue| > 0 && s'.queue[|s'.queue| - 1] == s'.current
            && multiset(s'.queue) == multiset(s.queue)
            && (forall p | p in s'.status && p != s'.current && p != s.current ::
              p in s.status && s'.status[p] == s.status[p])
  {
    LeaveFacts(s);
    SwitchFacts(s);
    hide *;
  }

  /** What a switch does, written out: a blocked process stays blocked and is not chosen, a terminated
      current process is gone, every other current one waits, unless it is chosen again; the queue goes
      on behind the chosen one, before which everybody was blocked. */
  lemma SwitchMeans<P>(s: Sched<P>, p: P)
    requires Safe(s) && p in s.status
    ensures var s' := Switch(s);
            && (s.status[p] == Blocked ==> p in s'.status && s'.status[p] == Blocked && p != s'.current)
            && (p == s.current && p != s.idle && s.status[p] == Terminated ==> p !in s'.status)
            && (p == s.current && (p == s.idle || s.status[p] !in {Blocked, Terminated}) ==>
                  p in s'.status && s'.status[p] == if p == s'.current then Running else Waiting)
            && (p != s.current ==> p in s'.status && s'.status[p] == if p == s'.current then Running else s.status[p])
            && s'.idle == s.idle && s'.status.Keys <= s.status.Keys
  {
    SwitchIs(s);
    hide FirstReady, Rotate, NoDuplicates;
  }

  lemma SwitchOrder<P>(s: Sched<P>) returns (i: nat)
    requires Safe(s)
    ensures i < |s.queue| && Switch(s).current == s.queue[i]
    ensures Switch(s).queue == s.queue[i + 1..] + s.queue[..i + 1]
    ensures forall j | 0 <= j < i :: s.queue[j] in s.status && s.status[s.queue[j]] == Blocked
  {
    SwitchIs(s);
    i := FirstReady(s.queue, Leave(s));
    RotateIs(s.queue, i + 1);
    forall j | 0 <= j < i ensures s.queue[j] in s.status && s.status[s.queue[j]] == Blocked {
      BeforeChosen(s, s.queue[j]);
    }
    hide *;
  }

  lemma RotateIs<P>(q: seq<P>, n: nat)
    requires n <= |q|
    ensures Rotate(q, n) == q[n..] + q[..n]
  {
  }

  lemma BeforeChosen<P>(s: Sched<P>, p: P)
    requires Safe(s) && p in s.queue && !Ready(Leave(s), p)
    ensures p in s.status && s.status[p] == Blocked
  {
    hide NoDuplicates;
  }

  /** What the other events do to a process and to the queue. */
  lemma StepMeans<P>(s: Sched<P>, e: Event<P>, p: P)
    requires Safe(s) && Legal(s, e) && !e.Timer? && p in s.status
    ensures var s' := Step(s, e);
            && s'.current == s.current && s'.idle == s.idle && p in s'.status
            && match e
               case Timer => true
               case Wake(x) =>
                 && s'.queue == s.queue && s'.status.Keys == s.status.Keys
                 && s'.status[p] == if p == x then Waiting else s.status[p]
               case Block =>
                 && s'.queue == s.queue && s'.status.Keys == s.status.Keys
                 && s'.status[p] == if p == s.current then Blocked else s.status[p]
               case Kill(woken) =>
                 && (exists i :: CutAt(s.queue, s.current, i, s'.queue)) && s'.status.Keys == s.status.Keys
                 && s'.status[p] == if p == s.current then Terminated else if p in woken then Waiting else s.status[p]
               case Spawn(x) =>
                 && s'.queue == s.queue + [x] && s'.status.Keys == s.status.Keys + {x} && s'.status[x] == Waiting
                 && s'.status[p] == s.status[p]
  {
    match e
    case Timer =>
    case Wake(x) =>
    case Block =>
    case Kill(woken) =>
      KillIs(s, woken);
      var i := WithoutCut(s.queue, s.current);
    case Spawn(x) =>
  }

  /** Queue r is queue q without its member p at index i. */
  ghost predicate CutAt<P>(q: seq<P>, p: P, i: int, r: seq<P>) {
    0 <= i < |q| && q[i] == p && r == q[..i] + q[i + 1..]
  }

  lemma {:induction false} WithoutCut<P>(q: seq<P>, p: P) returns (i: nat)
    requires p in q
    ensures CutAt(q, p, i, Without(q, p))
  {
    if q[0] == p {
      i := 0;
    } else {
      var j := WithoutCut(q[1..], p);
      i := j + 1;
      assert q[..i] == [q[0]] + q[1..][..j];
    }
  }

  /** An event that makes process p ready, or ends it. */
  ghost predicate Releases<P>(s: Sched<P>, e: Event<P>, p: P) {
    e == Wake(p) || (e.Kill? && (p in e.woken || p == s.current))
  }

  lemma StaysBlocked<P>(s: Sched<P>, e: Event<P>, p: P)
    requires Safe(s) && Legal(s, e) && p in s.status && s.status[p] == Blocked && !Releases(s, e, p)
    ensures var s' := Step(s, e);
            && p in s'.status && s'.status[p] == Blocked
            && (if e.Timer? then p != s'.current else s'.current == s.current)
  {
    if e.Timer? { SwitchMeans(s, p); } else { StepMeans(s, e, p); }
  }

  /** Over any run a blocked process stays blocked, and from the next switch on it is not the current one,
      until it is woken or ends. */
  lemma {:induction false} BlockedUntilWoken<P>(states: seq<Sched<P>>, events: seq<Event<P>>, p: P, k: nat)
    requires Run(states, events) && k < |states| && p in states[0].status && states[0].status[p] == Blocked
    requires forall j | 0 <= j < k :: !Releases(states[j], events[j], p)
    ensures p in states[k].status && states[k].status[p] == Blocked
    ensures states[k].current == p ==> states[0].current == p && Switches(events[..k]) == 0
    decreases k
  {
    if k > 0 {
      StaysBlocked(states[0], events[0], p);
      assert events[..k][1..] == events[1..][..k - 1];
      forall j | 0 <= j < k - 1 ensures !Releases(states[1..][j], events[1..][j], p) {
        assert !Releases(states[j + 1], events[j + 1], p);
      }
      BlockedUntilWoken(states[1..], events[1..], p, k - 1);
    }
  }

  /** Every event keeps the scheduler safe. */
  lemma StepSafe<P>(s: Sched<P>, e: Event<P>)
    requires Safe(s) && Legal(s, e)
    ensures Safe(Step(s, e))
  {
    match e
    case Timer => SwitchSafe(s);
    case Wake(p) =>
    case Block =>
    case Kill(woken) => WithoutElements(s.queue, s.current);
    case Spawn(p) =>
  }

  /** What the single events write. */
  lemma StepIs<P>(s: Sched<P>)
    requires Safe(s) && Legal(s, Block)
    ensures s.current in s.status && Step(s, Block) == s.(status := s.status[s.current := Blocked])
  {
  }

  lemma WakeIs<P>(s: Sched<P>, p: P)
    requires Safe(s) && Legal(s, Wake(p))
    ensures p in s.status && Step(s, Wake(p)) == s.(status := s.status[p := Waiting])
  {
  }

  lemma KillIs<P>(s: Sched<P>, woken: set<P>)
    requires Safe(s) && Legal(s, Kill(woken))
    ensures s.current in s.queue && s.current in s.status && NoDuplicates(s.queue) && woken <= s.status.Keys
    ensures Step(s, Kill(woken)) ==
            s.(queue := Without(s.queue, s.current), status := Woken(s.status, woken)[s.current := Terminated])
  {
  }

  lemma SpawnIs<P>(s: Sched<P>, p: P)
    requires Safe(s) && Legal(s, Spawn(p))
    ensures p !in s.status
    ensures Step(s, Spawn(p)) == s.(queue := s.queue + [p], status := s.status[p := Waiting])
  {
  }

  // --------------------------------------------------------------------------- runs

  ghost predicate Run<P>(states: seq<Sched<P>>, events: seq<Event<P>>)
    decreases |events|
  {
    && |states| == |events| + 1 && Safe(states[0])
    && (events == [] || (Legal(states[0], events[0]) && states[1] == Step(states[0], events[0]) &&
      Run(states[1..], events[1..])))
  }

  lemma {:induction false} RunSafe<P>(states: seq<Sched<P>>, events: seq<Event<P>>, k: nat)
    requires Run(states, events) && k < |states|
    ensures Safe(states[k])
    decreases |events|
  {
    if k > 0 { RunSafe(states[1..], events[1..], k - 1); }
  }

  function Switches<P>(events: seq<Event<P>>): nat {
    if events == [] then 0 else (if events[0].Timer? then 1 else 0) + Switches(events[1..])
  }

  function Position<P(==)>(q: seq<P>, p: P): (i: nat)
    requires p in q
    ensures i < |q| && q[i] == p
  {
    if q[0] == p then 0 else 1 + Position(q[1..], p)
  }

  lemma {:induction false} PositionUnique<P>(q: seq<P>, p: P, i: nat)
    requires NoDuplicates(q) && i < |q| && q[i] == p
    ensures p in q && Position(q, p) == i
  {
  }

  ghost predicate Waits<P>(s: Sched<P>, p: P) {
    p in s.queue && p in s.status && s.status[p] == Waiting
  }

  lemma {:induction false} WithoutPosition<P>(q: seq<P>, x: P, p: P)
    requires p in q && p != x
    ensures p in Without(q, x) && Position(Without(q, x), p) <= Position(q, p)
  {
    if q[0] != p && q[0] != x {
      assert p in q[1..];
      WithoutPosition(q[1..], x, p);
      var r := Without(q[1..], x);
      assert ([q[0]] + r)[1..] == r;
    } else if q[0] == x {
      assert p in q[1..];
    }
  }

  lemma {:induction false} AppendPosition<P>(q: seq<P>, x: P, p: P)
    requires p in q
    ensures Position(q + [x], p) == Position(q, p)
  {
    if q[0] != p {
      assert (q + [x])[1..] == q[1..] + [x];
      AppendPosition(q[1..], x, p);
    }
  }

  /** No event moves a waiting process back, and every switch that does not choose it moves it
      forward. */
  lemma WaitStep<P>(s: Sched<P>, e: Event<P>, p: P)
    requires Safe(s) && Legal(s, e) && Waits(s, p) && Waits(Step(s, e), p)
    ensures Position(Step(s, e).queue, p) + (if e.Timer? then 1 else 0) <= Position(s.queue, p)
  {
    match e
    case Timer => WaitSwitch(s, p);
    case Wake(x) =>
    case Block =>
    case Kill(woken) => WithoutPosition(s.queue, s.current, p);
    case Spawn(x) => AppendPosition(s.queue, x, p);
  }

  lemma WaitSwitch<P>(s: Sched<P>, p: P)
    requires Safe(s) && Waits(s, p) && Waits(Switch(s), p)
    ensures Position(Switch(s).queue, p) + 1 <= Position(s.queue, p)
  {
    hide *;
    SwitchIs(s);
    SwitchFacts(s);
    LeaveReady(s, p);
    var i, k := FirstReady(s.queue, Leave(s)), Position(s.queue, p);
    WaitsIs(Switch(s), p);
    assert k > i;
    RotateElements(s.queue, i + 1);
    assert Switch(s).queue[k - i - 1] == p;
    PositionUnique(Switch(s).queue, p, k - i - 1);
  }

  lemma WaitsIs<P>(s: Sched<P>, p: P)
    requires Waits(s, p)
    ensures p in s.queue && p in s.status && s.status[p] == Waiting
  {
  }

  lemma AllBlockedBefore<P>(s: Sched<P>, status: map<P, Status>)
    requires Safe(s) && status == Leave(s)
    ensures var i := FirstReady(s.queue, Leave(s));
            && i < |s.queue| && s.queue[i] in status && status[s.queue[i]] != Blocked
            && (forall j | 0 <= j < i :: s.queue[j] in status && status[s.queue[j]] == Blocked)
  {
    SwitchIs(s);
    LeaveFacts(s);
    hide Leave, Safe, FirstReady, Switch;
    assert forall j | 0 <= j < |s.queue| :: s.queue[j] in s.queue;
  }

  lemma LeaveReady<P>(s: Sched<P>, p: P)
    requires Safe(s) && Waits(s, p)
    ensures Ready(Leave(s), p) && p in s.queue
  {
  }

  /** Bounded waiting: over any run, a process that stays in the queue, ready and not chosen, sees at
      most as many switches as there were processes before it. */
  lemma {:induction false} BoundedWaiting<P>(states: seq<Sched<P>>, events: seq<Event<P>>, p: P)
    requires Run(states, events) && forall k | 0 <= k < |states| :: Waits(states[k], p)
    ensures Waits(states[0], p) && Switches(events) <= Position(states[0].queue, p)
    decreases |events|
  {
    if events != [] {
      WaitStep(states[0], events[0], p);
      BoundedWaiting(states[1..], events[1..], p);
    }
  }
}

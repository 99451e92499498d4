/** The global mailbox through which processes wait for the end of others, and whole runs of the
    process manager's operations over queue and mailbox. */
module Mailbox {
  import opened Scheduling

  ghost function Members<P>(s: seq<P>): set<P> {
    set p | p in s
  }

  /** The current process can exit exactly when everybody whom its messages wake is still there. */
  lemma ExitLegal<P>(s: Sched<P>, woken: seq<P>)
    requires s.current != s.idle && s.current in s.queue
    ensures Legal(s, Kill(Members(woken))) <==> forall p | p in woken :: p in s.status
  {
  }

  lemma NobodyWoken<P>(m: map<P, Status>)
    ensures Woken(m, Members([])) == m
  {
  }

  lemma KeptDone<P>(done: seq<P>)
    ensures done + [] == done
  {
  }

  lemma WokenOne<P>(m: map<P, Status>, woken: seq<P>, p: P)
    requires p in m
    ensures Woken(m, Members(woken))[p := Waiting] == Woken(m, Members(woken + [p]))
  {
  }

  // ------------------------------------------------------------------------- mailbox

  /** A message: from waits, or not, for the end of to. */
  datatype Message<P> = Message(from: P, to: P, waiting: bool)

  /** Whom ProcessManager_notify wakes for process c. The index moves on even when a message was taken
      out, so the message behind it is not looked at. */
  ghost function WokenBy<P>(q: seq<Message<P>>, c: P): seq<P> {
    if q == [] then []
    else if q[0].to == c then
      (if q[0].waiting then [q[0].from] else []) + (if |q| > 1 then WokenBy(q[2..], c) else [])
    else WokenBy(q[1..], c)
  }

  /** And which messages it leaves. */
  ghost function Unread<P>(q: seq<Message<P>>, c: P): seq<Message<P>> {
    if q == [] then []
    else if q[0].to == c then (if |q| > 1 then [q[1]] + Unread(q[2..], c) else [])
    else [q[0]] + Unread(q[1..], c)
  }

  /** Two messages to process c, one right behind the other. */
  ghost predicate Adjacent<P>(q: seq<Message<P>>, c: P) {
    exists i :: 0 <= i < |q| - 1 && q[i].to == c && q[i + 1].to == c
  }

  lemma AdjacentFirst<P>(q: seq<Message<P>>, c: P)
    requires q != []
    ensures Adjacent(q, c) <==> (|q| > 1 && q[0].to == c && q[1].to == c) || Adjacent(q[1..], c)
  {
    if Adjacent(q[1..], c) {
      var i :| 0 <= i < |q[1..]| - 1 && q[1..][i].to == c && q[1..][i + 1].to == c;
      assert q[i + 1].to == c && q[i + 1 + 1].to == c;
    }
    if Adjacent(q, c) {
      var i :| 0 <= i < |q| - 1 && q[i].to == c && q[i + 1].to == c;
      if i > 0 { assert q[1..][i - 1].to == c && q[1..][i - 1 + 1].to == c; }
    }
  }

  /** All messages to c are read exactly when no two of them are adjacent. */
  lemma {:induction false} AllReadIff<P>(q: seq<Message<P>>, c: P)
    ensures (forall m | m in Unread(q, c) :: m.to != c) <==> !Adjacent(q, c)
    decreases |q|
  {
    if q != [] {
      AdjacentFirst(q, c);
      if q[0].to != c {
        AllReadIff(q[1..], c);
        assert q[0] in Unread(q, c);
      } else if |q| > 1 {
        AdjacentFirst(q[1..], c);
        assert q[1..][1..] == q[2..];
        AllReadIff(q[2..], c);
        assert q[1] in Unread(q, c);
      }
    }
  }

  /** How many messages to c stand directly before index i. */
  function RunBefore<P(==)>(q: seq<Message<P>>, c: P, i: nat): nat
    requires i <= |q|
  {
    if i > 0 && q[i - 1].to == c then RunBefore(q, c, i - 1) + 1 else 0
  }

  /** Of each run of messages to c, every second one is looked at, from the first on. */
  predicate ReadAt<P(==)>(q: seq<Message<P>>, c: P, i: nat) {
    i < |q| && q[i].to == c && RunBefore(q, c, i) % 2 == 0
  }

  predicate WakesAt<P(==)>(q: seq<Message<P>>, c: P, p: P, i: nat) {
    ReadAt(q, c, i) && q[i].waiting && q[i].from == p
  }

  ghost predicate WakesFrom<P>(q: seq<Message<P>>, c: P, p: P, k: nat) {
    exists i: nat :: k <= i && WakesAt(q, c, p, i)
  }

  /** A process is woken exactly when one of its waiting messages stands at an even place of its run. */
  lemma WokenIff<P>(q: seq<Message<P>>, c: P, p: P)
    ensures p in WokenBy(q, c) <==> exists i: nat :: WakesAt(q, c, p, i)
  {
    WokenFrom(q, c, p, 0);
    assert q[0..] == q;
  }

  /** Where the loop of ProcessManager_notify goes on after it has looked at index k. */
  lemma NextLook<P>(q: seq<Message<P>>, c: P, k: nat)
    requires k < |q| && RunBefore(q, c, k) % 2 == 0
    ensures q[k].to != c ==> !ReadAt(q, c, k) && RunBefore(q, c, k + 1) % 2 == 0
    ensures q[k].to == c ==> ReadAt(q, c, k) && !ReadAt(q, c, k + 1)
    ensures q[k].to == c && k + 1 < |q| ==> RunBefore(q, c, k + 2) % 2 == 0
  {
  }

  lemma WakesNext<P>(q: seq<Message<P>>, c: P, p: P, k: nat)
    ensures WakesFrom(q, c, p, k) <==> WakesAt(q, c, p, k) || WakesFrom(q, c, p, k + 1)
    ensures WakesAt(q, c, p, k) <==> ReadAt(q, c, k) && q[k].waiting && q[k].from == p
    ensures k >= |q| ==> !WakesFrom(q, c, p, k)
  {
    if WakesFrom(q, c, p, k) {
      var i: nat :| k <= i && WakesAt(q, c, p, i);
      assert k == i || k + 1 <= i;
    }
  }

  lemma {:induction false} WokenFrom<P>(q: seq<Message<P>>, c: P, p: P, k: nat)
    requires k <= |q| && RunBefore(q, c, k) % 2 == 0
    ensures p in WokenBy(q[k..], c) <==> WakesFrom(q, c, p, k)
    decreases |q| - k
  {
    WakesNext(q, c, p, k);
    WakesNext(q, c, p, k + 1);
    if k == |q| {
      EmptyMailbox(c);
    } else {
      NotifyRound(q, k, c);
      NextLook(q, c, k);
      if q[k].to != c {
        WokenFrom(q, c, p, k + 1);
      } else if k + 1 < |q| {
        WokenFrom(q, c, p, k + 2);
      }
      hide *;
    }
  }

  /** The messages before index n that are not looked at. */
  function Passed<P(==)>(q: seq<Message<P>>, c: P, n: nat): seq<Message<P>>
    requires n <= |q|
  {
    if n == 0 then [] else Passed(q, c, n - 1) + (if ReadAt(q, c, n - 1) then [] else [q[n - 1]])
  }

  /** The mailbox keeps exactly the messages that are not looked at, in order. */
  lemma UnreadIs<P>(q: seq<Message<P>>, c: P)
    ensures Unread(q, c) == Passed(q, c, |q|)
  {
    hide *;
    NonePassed(q, c);
    UnreadFrom(q, c, 0);
    assert q[0..] == q;
  }

  lemma NonePassed<P>(q: seq<Message<P>>, c: P)
    ensures RunBefore(q, c, 0) == 0 && Passed(q, c, 0) == []
  {
  }

  lemma {:induction false} UnreadFrom<P>(q: seq<Message<P>>, c: P, k: nat)
    requires k <= |q| && RunBefore(q, c, k) % 2 == 0
    ensures Passed(q, c, k) + Unread(q[k..], c) == Passed(q, c, |q|)
    decreases |q| - k
  {
    if k == |q| {
      EmptyMailbox(c);
    } else {
      NotifyRound(q, k, c);
      NextLook(q, c, k);
      hide WokenBy, Unread, RunBefore, ReadAt;
      if q[k].to != c {
        UnreadFrom(q, c, k + 1);
        Regroup(Passed(q, c, k), [q[k]], Unread(q[k + 1..], c));
      } else {
        assert Passed(q, c, k + 1) == Passed(q, c, k);
        if k + 1 < |q| {
          UnreadFrom(q, c, k + 2);
          Regroup(Passed(q, c, k), [q[k + 1]], Unread(q[k + 2..], c));
        }
      }
    }
  }

  /** That everybody who waits for c is woken. */
  ghost predicate AllWoken<P>(q: seq<Message<P>>, c: P) {
    forall i | 0 <= i < |q| && q[i].to == c && q[i].waiting :: q[i].from in WokenBy(q, c)
  }

  /** All are woken exactly when everybody who waits has some message at an even place. */
  lemma AllWokenIff<P>(q: seq<Message<P>>, c: P)
    ensures AllWoken(q, c) <==>
            forall i | 0 <= i < |q| && q[i].to == c && q[i].waiting :: exists j: nat :: WakesAt(q, c, q[i].from, j)
  {
    forall i | 0 <= i < |q| && q[i].to == c && q[i].waiting
      ensures q[i].from in WokenBy(q, c) <==> exists j: nat :: WakesAt(q, c, q[i].from, j)
    {
      WokenIff(q, c, q[i].from);
    }
  }

  /** If nobody waits for c twice, all are woken exactly when no waiting message stands at an odd
      place. */
  lemma OnceEachIff<P>(q: seq<Message<P>>, c: P)
    requires forall i, j | 0 <= i < j < |q| && q[i].to == c == q[j].to && q[i].waiting && q[j].waiting ::
              q[i].from != q[j].from
    ensures AllWoken(q, c) <==> forall i: nat | i < |q| && q[i].to == c && q[i].waiting :: RunBefore(q, c, i) % 2 == 0
  {
    AllWokenIff(q, c);
    if AllWoken(q, c) {
      forall i: nat | i < |q| && q[i].to == c && q[i].waiting ensures RunBefore(q, c, i) % 2 == 0 {
        var j: nat :| WakesAt(q, c, q[i].from, j);
        assert i == j;
      }
    } else {
      var i: nat :| i < |q| && q[i].to == c && q[i].waiting && !exists j: nat :: WakesAt(q, c, q[i].from, j);
      assert !WakesAt(q, c, q[i].from, i);
    }
  }

  /** Messages that are apart are all at even places, so all are woken. */
  lemma ApartAllWoken<P>(q: seq<Message<P>>, c: P)
    requires !Adjacent(q, c)
    ensures AllWoken(q, c)
  {
    AllWokenIff(q, c);
    forall i: nat | i < |q| && q[i].to == c && q[i].waiting ensures WakesAt(q, c, q[i].from, i) {
      assert i > 0 ==> q[i - 1 + 1].to == c;
    }
  }

  /** Two processes that wait for the same one, one after the other: the second is missed. */
  lemma SecondWaiterMissed<P>(a: P, b: P, c: P)
    requires a != b
    ensures var q := [Message(a, c, true), Message(b, c, true)];
            WokenBy(q, c) == [a] && Unread(q, c) == [Message(b, c, true)]
  {
    var q := [Message(a, c, true), Message(b, c, true)];
    assert q[2..] == [];
  }

  /** A process that was woken and waits again leaves adjacent messages, of which one is enough. */
  lemma SameWaiterTwice<P>(a: P, c: P)
    ensures var q := [Message(a, c, true), Message(a, c, true)];
            Adjacent(q, c) && AllWoken(q, c) && Unread(q, c) == [q[1]]
  {
    var q := [Message(a, c, true), Message(a, c, true)];
    assert q[2..] == [];
    assert q[0 + 1].to == c;
    assert WokenBy(q, c) == [a];
  }

  /** One round of the loop of ProcessManager_notify, at a message that is, or is not, for c. */
  lemma NotifyRound<P>(q: seq<Message<P>>, i: nat, c: P)
    requires i < |q|
    ensures q[i].to != c ==>
              WokenBy(q[i..], c) == WokenBy(q[i + 1..], c) &&
              Unread(q[i..], c) == [q[i]] + Unread(q[i + 1..], c)
    ensures q[i].to == c ==>
              && WokenBy(q[i..], c) == (if q[i].waiting then [q[i].from]
                else []) + (if i + 1 < |q| then WokenBy(q[i + 2..], c) else [])
              && Unread(q[i..], c) == if i + 1 < |q| then [q[i + 1]] + Unread(q[i + 2..], c) else []
  {
    assert q[i..][1..] == q[i + 1..];
    if i + 1 < |q| { assert q[i..][2..] == q[i + 2..]; }
  }

  /** The loop of ProcessManager_notify has come to index i of what is now the mailbox, and has woken
      done. */
  ghost predicate Notifying<P>(q: seq<Message<P>>, c: P, box: seq<Message<P>>, i: nat, done: seq<P>) {
    && i <= |box| + 1
    && done + WokenBy(if i <= |box| then box[i..] else [], c) == WokenBy(q, c)
    && (if i <= |box| then box[..i] + Unread(box[i..], c) else box) == Unread(q, c)
  }

  lemma NotifyStart<P>(q: seq<Message<P>>, c: P)
    ensures Notifying(q, c, q, 0, [])
  {
    assert q[0..] == q && q[..0] == [];
  }

  lemma NotifyOver<P>(q: seq<Message<P>>, c: P, box: seq<Message<P>>, i: nat, done: seq<P>)
    requires Notifying(q, c, box, i, done) && i < |box| && box[i].to != c
    ensures Notifying(q, c, box, i + 1, done)
  {
    NotifyRound(box, i, c);
    hide WokenBy, Unread;
    Regroup(box[..i], [box[i]], Unread(box[i + 1..], c));
    assert box[..i + 1] == box[..i] + [box[i]];
  }

  /** The message is taken out, and who waits is woken. */
  lemma NotifyTake<P>(q: seq<Message<P>>, c: P, box: seq<Message<P>>, i: nat, done: seq<P>)
    requires Notifying(q, c, box, i, done) && i < |box| && box[i].to == c
    ensures box[i].waiting ==> box[i].from in WokenBy(q, c)
    ensures Notifying(q, c, box[..i] + box[i + 1..], i + 1, done + (if box[i].waiting then [box[i].from] else []))
  {
    NotifyRound(box, i, c);
    TakenOut(box, i);
    EmptyMailbox(c);
    var woken := if box[i].waiting then [box[i].from] else [];
    var rest := if i + 1 < |box| then WokenBy(box[i + 2..], c) else [];
    Regroup(done, woken, rest);
    if box[i].waiting { InMiddle(done, box[i].from, rest); }
    if i + 1 < |box| { Regroup(box[..i], [box[i + 1]], Unread(box[i + 2..], c)); }
    hide WokenBy, Unread;
  }

  lemma Regroup<T>(a: seq<T>, b: seq<T>, c: seq<T>)
    ensures a + (b + c) == (a + b) + c
  {
  }

  lemma InMiddle<T>(a: seq<T>, x: T, c: seq<T>)
    ensures x in a + ([x] + c)
  {
    assert (a + ([x] + c))[|a|] == x;
  }

  lemma TakenOut<P>(q: seq<Message<P>>, i: nat)
    requires i < |q|
    ensures var r := q[..i] + q[i + 1..];
            if i < |r| then r[..i + 1] == q[..i] + [q[i + 1]] && r[i + 1..] == q[i + 2..] else r == q[..i]
  {
  }

  lemma EmptyMailbox<P>(c: P)
    ensures WokenBy([], c) == [] && Unread([], c) == []
  {
  }

  lemma NotifyEnd<P>(q: seq<Message<P>>, c: P, box: seq<Message<P>>, i: nat, done: seq<P>)
    requires Notifying(q, c, box, i, done) && i >= |box|
    ensures done == WokenBy(q, c) && box == Unread(q, c)
  {
    EmptyMailbox(c);
    assert done + [] == done && box + [] == box;
  }

  // -------------------------------------------------------------------- queue and mailbox

  datatype Machine<P(==)> = Machine(sched: Sched<P>, box: seq<Message<P>>)

  /** What can happen: a timer interrupt with the context it saves, a status write from a handler, and
      the current process that blocks, waits for another, exits or starts one. */
  datatype Command<P> = Tick(context: int) | Awake(p: P) | Sleep | WaitFor(to: P) | Exit | Launch(p: P)

  ghost function EventOf<P>(m: Machine<P>, c: Command<P>): Event<P> {
    match c
    case Tick(_) => Timer
    case Awake(p) => Wake(p)
    case Sleep => Block
    case WaitFor(_) => Block
    case Exit => Kill(Members(WokenBy(m.box, m.sched.current)))
    case Launch(p) => Spawn(p)
  }

  ghost function BoxAfter<P>(m: Machine<P>, c: Command<P>): seq<Message<P>> {
    match c
    case WaitFor(to) => m.box + [Message(m.sched.current, to, true)]
    case Exit => Unread(m.box, m.sched.current)
    case _ => m.box
  }

  ghost predicate Allowed<P>(m: Machine<P>, c: Command<P>) {
    Legal(m.sched, EventOf(m, c))
  }

  ghost function Do<P>(m: Machine<P>, c: Command<P>): Machine<P>
    requires Safe(m.sched) && Allowed(m, c)
  {
    Machine(Step(m.sched, EventOf(m, c)), BoxAfter(m, c))
  }

  lemma DoIs<P>(m: Machine<P>, c: Command<P>)
    requires Safe(m.sched) && Allowed(m, c)
    ensures Legal(m.sched, EventOf(m, c)) && Do(m, c) == Machine(Step(m.sched, EventOf(m, c)), BoxAfter(m, c))
    ensures match c
            case Tick(_) => EventOf(m, c) == Timer && BoxAfter(m, c) == m.box && Step(m.sched, Timer) == Switch(m.sched)
            case Awake(p) => EventOf(m, c) == Wake(p) && BoxAfter(m, c) == m.box
            case Sleep => EventOf(m, c) == Block && BoxAfter(m, c) == m.box
            case WaitFor(to) => EventOf(m, c) == Block && BoxAfter(m, c) == m.box + [Message(m.sched.current, to, true)]
            case Exit =>
              && m.sched.current != m.sched.idle && m.sched.current in m.sched.queue
              && EventOf(m, c) == Kill(Members(WokenBy(m.box, m.sched.current)))
              && BoxAfter(m, c) == Unread(m.box, m.sched.current)
            case Launch(p) => EventOf(m, c) == Spawn(p) && BoxAfter(m, c) == m.box
  {
  }

  ghost predicate AllAllowed<P>(m: Machine<P>, cs: seq<Command<P>>)
    decreases |cs|
  {
    Safe(m.sched) && (cs == [] || (Allowed(m, cs[0]) && AllAllowed(Do(m, cs[0]), cs[1..])))
  }

  lemma AllAllowedIs<P>(m: Machine<P>, cs: seq<Command<P>>)
    requires AllAllowed(m, cs)
    ensures Safe(m.sched)
    ensures if cs == [] then DoAll(m, cs) == m
            else Allowed(m, cs[0]) && AllAllowed(Do(m, cs[0]), cs[1..]) && DoAll(m, cs) == DoAll(Do(m, cs[0]), cs[1..])
  {
  }

  ghost function DoAll<P>(m: Machine<P>, cs: seq<Command<P>>): Machine<P>
    requires AllAllowed(m, cs)
    decreases |cs|
  {
    if cs == [] then m else DoAll(Do(m, cs[0]), cs[1..])
  }

  ghost function States<P>(m: Machine<P>, cs: seq<Command<P>>): seq<Sched<P>>
    requires AllAllowed(m, cs)
    decreases |cs|
  {
    [m.sched] + if cs == [] then [] else States(Do(m, cs[0]), cs[1..])
  }

  ghost function Events<P>(m: Machine<P>, cs: seq<Command<P>>): seq<Event<P>>
    requires AllAllowed(m, cs)
    decreases |cs|
  {
    if cs == [] then [] else [EventOf(m, cs[0])] + Events(Do(m, cs[0]), cs[1..])
  }

  /** Commands run the scheduler's state machine, so all that holds over its runs holds here. */
  lemma {:induction false} CommandsRun<P>(m: Machine<P>, cs: seq<Command<P>>)
    requires AllAllowed(m, cs)
    ensures var ss := States(m, cs);
            Run(ss, Events(m, cs)) && ss[0] == m.sched && ss[|ss| - 1] == DoAll(m, cs).sched
    decreases |cs|
  {
    if cs != [] {
      var m1 := Do(m, cs[0]);
      CommandsRun(m1, cs[1..]);
      var ss, es := States(m, cs), Events(m, cs);
      assert ss[1..] == States(m1, cs[1..]) && es[1..] == Events(m1, cs[1..]);
    }
  }

  lemma {:induction false} CommandsSafe<P>(m: Machine<P>, cs: seq<Command<P>>)
    requires AllAllowed(m, cs)
    ensures Safe(DoAll(m, cs).sched)
    decreases |cs|
  {
    if cs != [] { CommandsSafe(Do(m, cs[0]), cs[1..]); }
  }

  // --------------------------------------------------------------------- gone senders

  /** Whoever has a message in the mailbox still exists. */
  ghost predicate Known<P>(m: Machine<P>) {
    forall x | x in m.box :: x.from in m.sched.status
  }

  /** A switch destroys a process that still has a message of its own in the mailbox. */
  ghost predicate Orphans<P>(m: Machine<P>, c: Command<P>) {
    && c.Tick? && m.sched.current != m.sched.idle && m.sched.current in m.sched.status
    && m.sched.status[m.sched.current] == Terminated
    && exists x :: x in m.box && x.from == m.sched.current
  }

  lemma {:induction false} UnreadWas<P>(q: seq<Message<P>>, c: P)
    ensures forall x | x in Unread(q, c) :: x in q
    decreases |q|
  {
    if q != [] {
      if q[0].to == c {
        if |q| > 1 { UnreadWas(q[2..], c); }
      } else {
        UnreadWas(q[1..], c);
      }
    }
  }

  lemma KnownStep<P>(m: Machine<P>, c: Command<P>)
    requires Safe(m.sched) && Allowed(m, c) && Known(m)
    ensures Known(Do(m, c)) <==> !Orphans(m, c)
  {
    UnreadWas(m.box, m.sched.current);
    if c.Tick? {
      SwitchIs(m.sched);
      var left := Leave(m.sched);
      assert Do(m, c).sched.status.Keys == left.Keys;
    }
    hide WokenBy, Unread;
  }

  ghost predicate AlwaysKnown<P>(m: Machine<P>, cs: seq<Command<P>>)
    requires AllAllowed(m, cs)
    decreases |cs|
  {
    Known(m) && (cs == [] || AlwaysKnown(Do(m, cs[0]), cs[1..]))
  }

  ghost predicate NeverOrphans<P>(m: Machine<P>, cs: seq<Command<P>>)
    requires AllAllowed(m, cs)
    decreases |cs|
  {
    cs == [] || (!Orphans(m, cs[0]) && NeverOrphans(Do(m, cs[0]), cs[1..]))
  }

  /** Over a run, senders exist throughout exactly when no process is destroyed with a message of its
      own in the mailbox. */
  lemma {:induction false} KnownIff<P>(m: Machine<P>, cs: seq<Command<P>>)
    requires AllAllowed(m, cs) && Known(m)
    ensures AlwaysKnown(m, cs) <==> NeverOrphans(m, cs)
    decreases |cs|
  {
    if cs != [] {
      KnownStep(m, cs[0]);
      if !Orphans(m, cs[0]) { KnownIff(Do(m, cs[0]), cs[1..]); }
    }
  }

  /** ProcessManager_notify writes to live processes only exactly when every waiting message it looks
      at is from one; while all senders exist it does. */
  lemma ExitIff<P>(m: Machine<P>)
    requires Safe(m.sched) && m.sched.current != m.sched.idle && m.sched.current in m.sched.queue
    ensures var c := m.sched.current;
            Allowed(m, Exit) <==> forall i: nat | ReadAt(m.box, c, i) && m.box[i].waiting ::
              m.box[i].from in m.sched.status
    ensures Known(m) ==> Allowed(m, Exit)
  {
    var c := m.sched.current;
    var woken := WokenBy(m.box, c);
    assert Allowed(m, Exit) <==> Members(woken) <= m.sched.status.Keys;
    forall p ensures p in Members(woken) <==> exists i: nat :: WakesAt(m.box, c, p, i) {
      WokenIff(m.box, c, p);
    }
    if Members(woken) <= m.sched.status.Keys {
      forall i: nat | ReadAt(m.box, c, i) && m.box[i].waiting ensures m.box[i].from in m.sched.status {
        assert WakesAt(m.box, c, m.box[i].from, i);
      }
    }
  }

  /** A process a waits for c, is woken by the keyboard, and exits before c does: when c exits, notify
      writes to a process that is gone. */
  lemma GoneSender<P>(a: P, c: P, k: P)
    requires a != c && c != k && a != k
    ensures var m := Machine(Sched([c, k, a], map[a := Running, c := Waiting, k := Waiting], a, k), []);
            var cs := [WaitFor(c), Awake(a)] + ([Tick(0), Tick(0), Tick(0)] + [Exit, Tick(0)]);
            && AllAllowed(m, cs) && Known(m)
            && DoAll(m, cs).sched.current == c && !Allowed(DoAll(m, cs), Exit)
  {
    var box := [Message(a, c, true)];
    var m0 := Machine(Sched([c, k, a], map[a := Running, c := Waiting, k := Waiting], a, k), []);
    var m2 := Machine(Sched([c, k, a], map[a := Waiting, c := Waiting, k := Waiting], a, k), box);
    var m5 := Machine(Sched([c, k, a], map[a := Running, c := Waiting, k := Waiting], a, k), box);
    var m7 := Machine(Sched([k, c], map[c := Running, k := Waiting], c, k), box);
    assert Performs(m0, [WaitFor(c), Awake(a)], m2) by { WaitsAndWakes(a, c, k); }
    assert Performs(m2, [Tick(0), Tick(0), Tick(0)], m5) by { OneRound(a, c, k, box); }
    assert Performs(m5, [Exit, Tick(0)], m7) by { ExitsAndGoes(a, c, k); }
    assert a in Members(WokenBy(box, c));
    hide *;
    PerformsBoth(m2, [Tick(0), Tick(0), Tick(0)], m5, [Exit, Tick(0)], m7);
    PerformsBoth(m0, [WaitFor(c), Awake(a)], m2, [Tick(0), Tick(0), Tick(0)] + [Exit, Tick(0)], m7);
    PerformsIs(m0, [WaitFor(c), Awake(a)] + ([Tick(0), Tick(0), Tick(0)] + [Exit, Tick(0)]), m7);
    GoneNow(a, c, k, box);
    KnownAtFirst(m0);
  }

  ghost predicate Performs<P>(m: Machine<P>, cs: seq<Command<P>>, m': Machine<P>) {
    AllAllowed(m, cs) && DoAll(m, cs) == m'
  }

  lemma PerformsIs<P>(m: Machine<P>, cs: seq<Command<P>>, m': Machine<P>)
    requires Performs(m, cs, m')
    ensures AllAllowed(m, cs) && DoAll(m, cs) == m'
  {
  }

  lemma PerformsOne<P>(m: Machine<P>, c: Command<P>, m': Machine<P>)
    requires Safe(m.sched) && Allowed(m, c) && Do(m, c) == m' && Safe(m'.sched)
    ensures Performs(m, [c], m')
  {
    hide Safe, Allowed, Do;
    var cs := [c];
    assert cs[1..] == [] && cs[0] == c;
    assert AllAllowed(m', cs[1..]) && DoAll(m', cs[1..]) == m';
  }

  lemma {:induction false} PerformsBoth<P>(m: Machine<P>, cs: seq<Command<P>>, m1: Machine<P>, ds: seq<Command<P>>,
        m2: Machine<P>)
    requires Performs(m, cs, m1) && Performs(m1, ds, m2)
    ensures Performs(m, cs + ds, m2)
    decreases |cs|
  {
    if cs == [] {
      assert cs + ds == ds;
    } else {
      assert (cs + ds)[1..] == cs[1..] + ds;
      PerformsBoth(Do(m, cs[0]), cs[1..], m1, ds, m2);
    }
  }

  lemma WaitsAndWakes<P>(a: P, c: P, k: P)
    requires a != c && c != k && a != k
    ensures Performs(Machine(Sched([c, k, a], map[a := Running, c := Waiting, k := Waiting], a, k), []),
                     [WaitFor(c), Awake(a)],
                     Machine(Sched([c, k, a], map[a := Waiting, c := Waiting, k := Waiting], a, k),
                       [Message(a, c, true)]))
  {
    var box := [Message(a, c, true)];
    var m0 := Machine(Sched([c, k, a], map[a := Running, c := Waiting, k := Waiting], a, k), []);
    var m1 := Machine(Sched([c, k, a], map[a := Blocked, c := Waiting, k := Waiting], a, k), box);
    var m2 := Machine(Sched([c, k, a], map[a := Waiting, c := Waiting, k := Waiting], a, k), box);
    assert m1.sched.status == m0.sched.status[a := Blocked] && m2.sched.status == m1.sched.status[a := Waiting];
    assert Safe(m0.sched) && Safe(m1.sched) && Safe(m2.sched) && m1.box == m0.box + [Message(a, c, true)];
    hide Safe, Performs;
    PerformsOne(m0, WaitFor(c), m1);
    PerformsOne(m1, Awake(a), m2);
    hide *;
    PerformsBoth(m0, [WaitFor(c)], m1, [Awake(a)], m2);
    assert [WaitFor(c)] + [Awake(a)] == [WaitFor(c), Awake(a)];
  }

  lemma OneTick<P>(m: Machine<P>, m': Machine<P>)
    requires Safe(m.sched) && m.sched.queue != [] && Ready(Leave(m.sched), m.sched.queue[0]) && m'.box == m.box
    requires m'.sched.queue == m.sched.queue[1..] + [m.sched.queue[0]] && m'.sched.idle == m.sched.idle
    requires m'.sched.status == Leave(m.sched)[m.sched.queue[0] := Running] && m'.sched.current == m.sched.queue[0]
    ensures Performs(m, [Tick(0)], m')
  {
    NextRuns(m.sched);
    SwitchSafe(m.sched);
    hide Switch, Safe, Leave, Ready;
    SameSched(m'.sched, Switch(m.sched));
    assert Do(m, Tick(0)) == m';
    PerformsOne(m, Tick(0), m');
  }

  lemma SameSched<P>(s: Sched<P>, s': Sched<P>)
    requires s.queue == s'.queue && s.status == s'.status && s.current == s'.current && s.idle == s'.idle
    ensures s == s'
  {
  }

  /** A switch with three processes that all wait but for the current one. */
  lemma TickOfThree<P>(p: P, q: P, r: P, k: P, status: map<P, Status>, box: seq<Message<P>>)
    requires p != q && q != r && p != r && k in {p, q, r} && status.Keys == {p, q, r}
    requires status[p] == status[q] == Waiting && status[r] in {Waiting, Running}
    ensures Performs(Machine(Sched([p, q, r], status, r, k), box), [Tick(0)],
                     Machine(Sched([q, r, p], status[r := Waiting][p := Running], p, k), box))
  {
    var m := Machine(Sched([p, q, r], status, r, k), box);
    var m' := Machine(Sched([q, r, p], status[r := Waiting][p := Running], p, k), box);
    hide Performs;
    assert Safe(m.sched);
    assert Leave(m.sched) == status[r := Waiting];
    OneTick(m, m');
  }

  lemma OneRound<P>(a: P, c: P, k: P, box: seq<Message<P>>)
    requires a != c && c != k && a != k
    ensures Performs(Machine(Sched([c, k, a], map[a := Waiting, c := Waiting, k := Waiting], a, k), box),
                     [Tick(0), Tick(0), Tick(0)],
                     Machine(Sched([c, k, a], map[a := Running, c := Waiting, k := Waiting], a, k), box))
  {
    hide *;
    var s2 := map[a := Waiting, c := Waiting, k := Waiting];
    var s3 := map[a := Waiting, c := Running, k := Waiting];
    var s4 := map[a := Waiting, c := Waiting, k := Running];
    var s5 := map[a := Running, c := Waiting, k := Waiting];
    assert s3 == s2[a := Waiting][c := Running] && s4 == s3[c := Waiting][k := Running] &&
      s5 == s4[k := Waiting][a := Running];
    TickOfThree(c, k, a, k, s2, box);
    TickOfThree(k, a, c, k, s3, box);
    TickOfThree(a, c, k, k, s4, box);
    var m2, m3 := Machine(Sched([c, k, a], s2, a, k), box), Machine(Sched([k, a, c], s3, c, k), box);
    var m4, m5 := Machine(Sched([a, c, k], s4, k, k), box), Machine(Sched([c, k, a], s5, a, k), box);
    var tick: seq<Command<P>> := [Tick(0)];
    PerformsBoth(m3, tick, m4, tick, m5);
    PerformsBoth(m2, tick, m3, tick + tick, m5);
    assert tick + (tick + tick) == [Tick(0), Tick(0), Tick(0)];
  }

  /** A switch away from a process that has exited destroys it. */
  lemma TickAfterExit<P>(p: P, q: P, a: P, k: P, status: map<P, Status>, box: seq<Message<P>>)
    requires p != q && a != p && a != q && k in {p, q} && status.Keys == {p, q, a}
    requires status[p] == status[q] == Waiting && status[a] == Terminated
    ensures var m := Machine(Sched([p, q], status, a, k), box);
            && Safe(m.sched)
            && Performs(m, [Tick(0)], Machine(Sched([q, p], (status - {a})[p := Running], p, k), box))
  {
    var m := Machine(Sched([p, q], status, a, k), box);
    var m' := Machine(Sched([q, p], (status - {a})[p := Running], p, k), box);
    hide Performs;
    assert Safe(m.sched);
    assert Leave(m.sched) == status - {a};
    OneTick(m, m');
  }

  lemma ExitsAndGoes<P>(a: P, c: P, k: P)
    requires a != c && c != k && a != k
    ensures Performs(Machine(Sched([c, k, a], map[a := Running, c := Waiting, k := Waiting], a, k),
              [Message(a, c, true)]),
                     [Exit, Tick(0)],
                     Machine(Sched([k, c], map[c := Running, k := Waiting], c, k), [Message(a, c, true)]))
  {
    var box := [Message(a, c, true)];
    var m5 := Machine(Sched([c, k, a], map[a := Running, c := Waiting, k := Waiting], a, k), box);
    var s6 := map[a := Terminated, c := Waiting, k := Waiting];
    var m6 := Machine(Sched([c, k], s6, a, k), box);
    var m7 := Machine(Sched([k, c], map[c := Running, k := Waiting], c, k), box);
    assert Safe(m5.sched);
    hide *;
    assert (s6 - {a})[c := Running] == map[c := Running, k := Waiting];
    TickAfterExit(c, k, a, k, s6, box);
    ExitAlone(m5, m6, a);
    var exit: seq<Command<P>> := [Exit];
    PerformsBoth(m5, exit, m6, [Tick(0)], m7);
    assert exit + [Tick(0)] == [Exit, Tick(0)];
  }

  /** The last of the queue exits, and there is no message for it. */
  lemma ExitAlone<P>(m: Machine<P>, m': Machine<P>, a: P)
    requires Safe(m.sched) && Safe(m'.sched) && |m.box| == 1 && m.box[0].to != a && m'.box == m.box
    requires m.sched.current == a == m'.sched.current && m.sched.idle == m'.sched.idle != a
    requires m.sched.queue == m'.sched.queue + [a] && a !in m'.sched.queue &&
              m'.sched.status == m.sched.status[a := Terminated]
    ensures Performs(m, [Exit], m')
  {
    assert m.box[1..] == [] && m.box == [m.box[0]];
    EmptyMailbox(a);
    assert WokenBy(m.box, a) == [] && Unread(m.box, a) == m.box;
    assert a == m.sched.queue[|m'.sched.queue|];
    WithoutLast(m'.sched.queue, a);
    NobodyWoken(m.sched.status);
    KillIs(m.sched, Members([]));
    hide Safe, WokenBy, Unread, Without, Woken;
    SameSched(m'.sched, Step(m.sched, Kill(Members([]))));
    PerformsOne(m, Exit, m');
  }

  lemma {:induction false} WithoutLast<P>(q: seq<P>, a: P)
    requires a !in q
    ensures Without(q + [a], a) == q
  {
    if q != [] {
      assert (q + [a])[1..] == q[1..] + [a];
      WithoutLast(q[1..], a);
    }
  }

  lemma GoneNow<P>(a: P, c: P, k: P, box: seq<Message<P>>)
    requires a in Members(WokenBy(box, c)) && a != c && a != k
    ensures !Allowed(Machine(Sched([k, c], map[c := Running, k := Waiting], c, k), box), Exit)
  {
  }

  lemma KnownAtFirst<P>(m: Machine<P>)
    requires m.box == []
    ensures Known(m)
  {
  }

  lemma NextRuns<P>(s: Sched<P>)
    requires Safe(s) && s.queue != [] && Ready(Leave(s), s.queue[0])
    ensures Switch(s) == Sched(s.queue[1..] + [s.queue[0]], Leave(s)[s.queue[0] := Running], s.queue[0], s.idle)
  {
    SwitchIs(s);
    assert s.queue[..1] == [s.queue[0]];
  }
}

/** The scheduler: tasks in a circular list threaded through their next pointers, entered at the current task. */
module Scheduler {
  import opened TaskRing

  /** A pending signal, whether it is masked, and whether a handler is set. */
  datatype Signal = Signal(pending: bool, masked: bool, handled: bool)

  class Task {
    const pid: nat
    const ppid: nat
    var state: State
    var wakeTick: nat
    var exitCode: int
    var signals: seq<Signal>
    var next: Task?

    ghost function Now(): Status
      reads this
    {
      Status(state, exitCode, signals)
    }

    constructor (pid: nat, ppid: nat)
      ensures this.pid == pid && this.ppid == ppid && state == Ready && next == null
      ensures |signals| == 32 && forall s :: 0 <= s < 32 ==> !signals[s].pending
    {
      this.pid, this.ppid, state, wakeTick, exitCode := pid, ppid, Ready, 0, 0;
      signals := seq(32, _ => Signal(false, false, false));
      next := null;
    }
  }

  /** What a timer tick looks at and changes in one task. */
  datatype Status = Status(state: State, exitCode: int, signals: seq<Signal>)

  /** Signal `s` ends a task: 9 always, 2 and 15 when a handler is set. */
  predicate Kills(g: Signal, s: nat) { g.pending && !g.masked && (s == 9 || (g.handled && (s == 2 || s == 15))) }

  /** The first signal from `s` on that ends the task, or their number. */
  function Killer(g: seq<Signal>, s: nat): (k: nat)
    requires s <= |g|
    ensures s <= k <= |g| && (k < |g| ==> Kills(g[k], k)) && forall i :: s <= i < k ==> !Kills(g[i], i)
    decreases |g| - s
  {
    if s == |g| || Kills(g[s], s) then s else Killer(g, s + 1)
  }

  lemma KillerAt(g: seq<Signal>, s: nat)
    requires s < |g|
    ensures Killer(g, s) == if Kills(g[s], s) then s else Killer(g, s + 1)
  {
  }

  function Delivered(g: Signal): Signal { if g.pending && !g.masked then g.(pending := false) else g }

  /** A sleeper that is due becomes ready; then the signals up to the first deadly one are taken, and that one ends
      the task. */
  function Ticked(t: Status, wakeTick: nat, now: nat): Status
  {
    var state := if t.state == Sleeping && now >= wakeTick then Ready else t.state;
    if state == Terminated then t else
      var k := Killer(t.signals, 0);
      Status(if k < |t.signals| then Terminated else state, if k < |t.signals| then -(k as int) else t.exitCode,
             DeliveredTo(t.signals, k + 1))
  }

  /** The signals with those before `n` taken. */
  function DeliveredTo(g: seq<Signal>, n: nat): (r: seq<Signal>)
    ensures |r| == |g|
  {
    seq(|g|, i requires 0 <= i < |g| => if i < n then Delivered(g[i]) else g[i])
  }

  lemma DeliveredNext(g: seq<Signal>, n: nat)
    requires n < |g|
    ensures DeliveredTo(g, n)[n] == g[n] && DeliveredTo(g, n + 1) == DeliveredTo(g, n)[n := Delivered(g[n])]
  {
    hide Delivered;
  }

  lemma DeliveredEnds(g: seq<Signal>)
    ensures DeliveredTo(g, 0) == g && DeliveredTo(g, |g| + 1) == DeliveredTo(g, |g|)
  {
    hide Delivered;
  }

  /** A tick starts nobody, wakes exactly the sleepers that are due and not killed, and ends exactly the tasks with a
      deadly signal. */
  lemma TickMeans(t: Status, wakeTick: nat, now: nat)
    ensures var u := Ticked(t, wakeTick, now);
            && (u.state == Running ==> t.state == Running)
            && (u.state == Terminated <==> t.state == Terminated || exists s :: 0 <= s < |t.signals| && Kills(t.signals[s], s))
            && (t.state == Sleeping && u.state != Terminated ==> (u.state == Ready <==> now >= wakeTick))
            && (t.state != Sleeping && u.state != Terminated ==> u.state == t.state)
            && |u.signals| == |t.signals|
  {
    var k := Killer(t.signals, 0);
    assert k < |t.signals| ==> Kills(t.signals[k], k);
  }

  /** The signal ends a task at a tick: it is pending and not masked, and is number 9, or 2 or 15 with a handler. */
  predicate Deadly(g: seq<Signal>, s: nat)
    requires s < |g|
  {
    g[s].pending && !g[s].masked && (s == 9 || ((s == 2 || s == 15) && g[s].handled))
  }

  /** Signals are taken in order up to the first deadly one, whose number negated is the exit code; masked ones and those
      behind it stay pending, and nothing else of a signal changes. A terminated task keeps all of them. */
  lemma TickTakes(t: Status, wakeTick: nat, now: nat, s: nat)
    requires s < |t.signals|
    ensures var u := Ticked(t, wakeTick, now);
            && |u.signals| == |t.signals|
            && u.signals[s] == t.signals[s].(pending := t.signals[s].pending
                                 && (t.state == Terminated || t.signals[s].masked || exists i :: 0 <= i < s && Deadly(t.signals, i)))
    ensures var u := Ticked(t, wakeTick, now);
            if t.state != Terminated && Deadly(t.signals, s) && forall i :: 0 <= i < s ==> !Deadly(t.signals, i)
            then u.state == Terminated && u.exitCode == -(s as int)
            else (u.state == Terminated && t.state != Terminated) || u.exitCode == t.exitCode
  {
    var k := Killer(t.signals, 0);
    assert forall i :: 0 <= i < |t.signals| ==> (Kills(t.signals[i], i) <==> Deadly(t.signals, i));
    assert forall i :: 0 <= i < k ==> !Kills(t.signals[i], i);
    assert k < |t.signals| ==> Deadly(t.signals, k);
  }

  /** Following next pointers from the first task visits exactly `r` and comes back. */
  ghost predicate Linked(r: seq<Task>)
    reads (set t | t in r)`next
  {
    && (forall i, j :: 0 <= i < j < |r| ==> r[i] != r[j])
    && (forall i :: 0 <= i < |r| - 1 ==> r[i].next == r[i + 1])
    && (|r| > 0 ==> r[|r| - 1].next == r[0])
  }

  function Entries(r: seq<Task>): (e: seq<Entry<Task>>)
    reads r
    ensures |e| == |r| && forall i :: 0 <= i < |r| ==> e[i] == Entry(r[i], r[i].state)
  {
    seq(|r|, i requires 0 <= i < |r| reads r => Entry(r[i], r[i].state))
  }

  /** Entering the list at place `k` visits the same tasks. */
  lemma LinkedRotated(r: seq<Task>, k: nat)
    requires Linked(r) && k < |r|
    ensures Linked(r[k..] + r[..k])
  {
    var s := r[k..] + r[..k];
    forall i | 0 <= i < |s| - 1
      ensures s[i].next == s[i + 1]
    {
      var j := if i < |r| - k then i + k else i - (|r| - k);
      assert s[i] == r[j] && (j < |r| - 1 ==> r[j].next == r[j + 1]);
    }
  }

  /** Each task once, with the pointers of a ring except at place `m`, which points past its successor `i`. */
  ghost predicate Bypassed(r: seq<Task>, i: nat, m: nat)
    requires i < |r| && m < |r|
    reads r
  {
    && (forall j, k :: 0 <= j < k < |r| ==> r[j] != r[k])
    && (forall k :: 0 <= k < |r| && k != m ==> r[k].next == r[if k + 1 < |r| then k + 1 else 0])
    && r[m].next == r[if i + 1 < |r| then i + 1 else 0]
  }

  /** Pointing the predecessor of task `i` past it takes that task out. */
  lemma Relinked(r: seq<Task>, i: nat, m: nat)
    requires i < |r| && m == (if i > 0 then i - 1 else |r| - 1) && Bypassed(r, i, m)
    ensures Linked(r[..i] + r[i + 1..])
  {
    var t := r[..i] + r[i + 1..];
    assert forall k :: 0 <= k < |t| ==> t[k] == r[if k < i then k else k + 1];
    forall k | 0 <= k < |t| - 1
      ensures t[k].next == t[k + 1]
    {
      assert t[k] == r[if k < i then k else k + 1];
    }
    assert r[|r| - 1].next == r[0] || m == |r| - 1;
    assert i == |r| - 1 ==> r[m].next == r[0];
  }

  lemma LinkAt(r: seq<Task>, k: nat)
    requires Linked(r) && k < |r|
    ensures r[k].next == r[if k + 1 < |r| then k + 1 else 0]
  {
  }

  /** Only the predecessor of a task points to it. */
  lemma OnceOnly(r: seq<Task>, j: nat, i: nat)
    requires Linked(r) && i < |r| && j < |r|
    ensures r[if j + 1 < |r| then j + 1 else 0] == r[i] <==> j == if i > 0 then i - 1 else |r| - 1
    ensures r[j] == r[i] <==> j == i
  {
  }

  lemma RemovedIs(r: seq<Task>, i: nat)
    requires Linked(r) && i < |r|
    ensures var t := r[..i] + r[i + 1..];
            && (forall x :: x in t ==> x in r && x != r[i])
            && (forall k :: 0 <= k < |t| ==> t[k] == r[if k < i then k else k + 1])
    ensures r[0] == r[i] ==> i == 0
  {
  }

  lemma EachOnce(r: seq<Task>)
    requires Linked(r)
    ensures forall i, j :: 0 <= i < j < |r| ==> r[i] != r[j]
  {
  }

  /** `r` are the tasks of the entries `e`, in order. */
  ghost predicate Names(r: seq<Task>, e: seq<Entry<Task>>)
  {
    |r| == |e| && forall i :: 0 <= i < |r| ==> r[i] == e[i].task
  }

  /** The ring while it is reaped from place `k` on and place `q` is next. */
  ghost function Between(e: seq<Entry<Task>>, k: nat, q: nat): seq<Entry<Task>>
    requires k <= q <= |e|
  {
    e[..k] + Survivors(e[k..q]) + e[q..]
  }

  lemma BetweenStart(r: seq<Task>, k: nat)
    requires k <= |r|
    ensures Names(r, Between(Entries(r), k, k)) && Dead(Entries(r)[k..k]) == {}
  {
    var e := Entries(r);
    assert e[k..k] == [] && e[..k] + [] + e[k..] == e;
  }

  lemma BetweenEnd(e: seq<Entry<Task>>, k: nat)
    requires k <= |e|
    ensures Between(e, k, |e|) == e[..k] + Survivors(e[k..]) && e[k..|e|] == e[k..]
  {
    assert e[k..|e|] == e[k..] && e[|e|..] == [];
  }

  lemma DeadNext(e: seq<Entry<Task>>, k: nat, q: nat)
    requires k <= q < |e|
    ensures Dead(e[k..q + 1]) == Dead(e[k..q]) + if e[q].state == Terminated then {e[q].task} else {}
  {
    hide Dead;
    assert e[k..q + 1] == e[k..q] + [e[q]];
    DeadApp(e[k..q], [e[q]]);
    TasksOne(e[q]);
  }

  /** The place of entry `q`, its successor, and the ring with it passed over. */
  lemma BetweenAt(r: seq<Task>, e: seq<Entry<Task>>, k: nat, q: nat) returns (p: nat)
    requires 1 <= k <= q < |e| && Names(r, Between(e, k, q))
    ensures 1 <= p < |r| && r[p] == e[q].task && r[0] == e[0].task
    ensures r[if p + 1 < |r| then p + 1 else 0] == e[if q + 1 < |e| then q + 1 else 0].task
    ensures Names(if e[q].state == Terminated then r[..p] + r[p + 1..] else r, Between(e, k, q + 1))
  {
    hide Survivors, Between;
    BetweenIs(e, k, q);
    BetweenIs(e, k, q + 1);
    var a, s, b := e[..k], Survivors(e[k..q]), e[q + 1..];
    assert e[k..q + 1] == e[k..q] + [e[q]];
    SurvivorsApp(e[k..q], [e[q]]);
    SurvivorsOne(e[q]);
    p := k + |s|;
    assert e[q..] == [e[q]] + b;
    Middle(a, s, e[q], b);
    assert s + [] == s;
    NamesDrop(r, a + s, e[q], b);
  }

  lemma Middle<T>(a: seq<T>, s: seq<T>, x: T, b: seq<T>)
    ensures a + s + ([x] + b) == a + s + [x] + b && a + (s + [x]) + b == a + s + [x] + b
  {
  }

  /** One named entry, its successor, and the names without it. */
  lemma NamesDrop(r: seq<Task>, u: seq<Entry<Task>>, x: Entry<Task>, v: seq<Entry<Task>>)
    requires Names(r, u + [x] + v)
    ensures |u| < |r| && r[|u|] == x.task && (|u| > 0 ==> r[0] == u[0].task)
    ensures v != [] ==> |u| + 1 < |r| && r[|u| + 1] == v[0].task
    ensures v == [] ==> |u| + 1 == |r|
    ensures Names(r[..|u|] + r[|u| + 1..], u + v)
  {
    var w := u + [x] + v;
    assert forall i :: 0 <= i < |u| ==> w[i] == u[i];
    assert forall i :: 0 <= i < |v| ==> w[|u| + 1 + i] == v[i];
  }

  lemma BetweenIs(e: seq<Entry<Task>>, k: nat, q: nat)
    requires k <= q <= |e|
    ensures Between(e, k, q) == e[..k] + Survivors(e[k..q]) + e[q..]
  {
  }

  lemma EntriesNamed(r: seq<Task>, e: seq<Entry<Task>>)
    requires Names(r, e) && forall i :: 0 <= i < |e| ==> Current(e[i])
    ensures Entries(r) == e
  {
  }

  /** The entry still tells the state of its task. */
  ghost predicate Current(e: Entry<Task>)
    reads e.task
  {
    e.state == e.task.state
  }

  lemma {:induction false} SurvivorsCurrent(e: seq<Entry<Task>>)
    requires forall i :: 0 <= i < |e| ==> Current(e[i])
    ensures forall i :: 0 <= i < |Survivors(e)| ==> Current(Survivors(e)[i])
    decreases |e|
  {
    if e != [] {
      SurvivorsCurrent(e[1..]);
    }
  }

  /** No other task can be dispatched. */
  predicate Alone(e: seq<Entry<Task>>)
    requires |e| > 0
  {
    NextFrom(e, 1) == |e|
  }

  /** The tasks that one call of schedule reaps. */
  ghost function Reaped(e: seq<Entry<Task>>): set<Task>
    requires |e| > 0
  {
    if Alone(e) then {} else Dead(e[NextFrom(e, 1) + 1..])
  }

  lemma RingIs(r: seq<Task>)
    requires Linked(r) && |r| > 0 && forall i :: 1 <= i < |r| ==> r[i].state != Running
    ensures OneRing(Entries(r)) && Names(r, Entries(r))
  {
  }

  lemma ScheduledRing(e: seq<Entry<Task>>)
    requires OneRing(e) && |e| > 0
    ensures OneRing(Scheduled(e)) && Tasks(Scheduled(e)) == Tasks(e) - Reaped(e)
  {
    hide Scheduled, Reaped, Tasks, Dead, OneRing;
    ScheduledKeeps(e);
    ReapedIs(e);
  }

  lemma ReapedIs(e: seq<Entry<Task>>)
    requires |e| > 0
    ensures var k := NextFrom(e, 1); Reaped(e) == if k < |e| then Dead(e[k + 1..]) else {}
  {
  }

  lemma NothingReaped(e: seq<Entry<Task>>, k: nat)
    requires k == |e| && |e| > 0 && k == NextFrom(e, 1)
    ensures e[..k] + Survivors(e[k..]) == e && Dead(e[k..]) == {} && Scheduled(e) == e
  {
  }

  lemma FirstSurvives(e: seq<Entry<Task>>, k: nat)
    requires k < |e| && Dispatchable(e[k].state)
    ensures Survivors(e[k..]) == [e[k]] + Survivors(e[k + 1..]) && Dead(e[k..]) == Dead(e[k + 1..])
  {
    hide Survivors, Dead;
    assert e[k..] == [e[k]] + e[k + 1..];
    SurvivorsApp([e[k]], e[k + 1..]);
    SurvivorsOne(e[k]);
    DeadApp([e[k]], e[k + 1..]);
    TasksOne(e[k]);
  }

  /** The ring after its first `k` entries moved to the back and the two tasks changed their states. */
  ghost function Turned(e: seq<Entry<Task>>, k: nat, x: Entry<Task>, s: seq<Entry<Task>>, start: Task): seq<Entry<Task>>
    requires 1 <= k <= |e|
  {
    [Entry(x.task, Running)] + s + [Entry(start, Ready)] + e[1..k]
  }

  lemma TurnedAt(e: seq<Entry<Task>>, k: nat, x: Entry<Task>, s: seq<Entry<Task>>, start: Task)
    requires 1 <= k < |e| && e[k..] == [x] + s
    ensures var f, n := Turned(e, k, x, s, start), |e| - k;
            && |f| == |e| && f[0] == Entry(e[k].task, Running) && f[n] == Entry(start, Ready)
            && (forall i :: 1 <= i < n ==> f[i] == e[i + k]) && (forall i :: n < i < |e| ==> f[i] == e[i - n])
  {
    assert e[k..][0] == x;
    assert forall i :: 1 <= i < |e| - k ==> ([x] + s)[i] == e[k..][i];
  }

  lemma TurnedIsScheduled(e: seq<Entry<Task>>, k: nat)
    requires |e| > 0 && k == NextFrom(e, 1) < |e|
    ensures var f := e[..k] + ([e[k]] + Survivors(e[k + 1..]));
            Turned(f, k, e[k], Survivors(e[k + 1..]), e[0].task) == Scheduled(e) && f[k..] == [e[k]] + Survivors(e[k + 1..])
  {
    hide NextFrom, Survivors, Scheduled;
    NextFirst(e);
    var s := Survivors(e[k + 1..]);
    assert (e[..k] + ([e[k]] + s))[1..k] == e[1..k];
  }

  /** The tasks of the new ring are old ones that were not freed, and only the first may be running. */
  lemma StillRing(was: seq<Task>, r: seq<Task>, e: seq<Entry<Task>>, freed: set<Task>)
    requires |e| > 0 && Names(was, e) && Entries(r) == Scheduled(e) && OneRing(Scheduled(e))
    requires Tasks(Scheduled(e)) == Tasks(e) - Reaped(e) && forall t :: t in was ==> t !in freed
    ensures forall t :: t in r ==> t in was && t !in freed + Reaped(e)
    ensures forall i :: 1 <= i < |r| ==> r[i].state != Running
  {
    hide Scheduled, Reaped;
    var s := Scheduled(e);
    forall t | t in r
      ensures t in was && t !in freed + Reaped(e)
    {
      var i :| 0 <= i < |r| && r[i] == t;
      assert s[i].task == t && t in Tasks(s) && t in Tasks(e);
    }
    forall i | 1 <= i < |r|
      ensures r[i].state != Running
    {
      assert s[i] == s[1..][i - 1];
    }
  }

  lemma {:induction false} NextSame(e: seq<Entry<Task>>, x: Entry<Task>, j: nat)
    requires 1 <= j <= |e|
    ensures NextFrom(e[0 := x], j) == NextFrom(e, j)
    decreases |e| - j
  {
    if j < |e| {
      NextSame(e, x, j + 1);
    }
  }

  /** The outgoing task is ready afterwards if another one was dispatched, and as it was otherwise. */
  lemma OutgoingReady(e: seq<Entry<Task>>)
    requires |e| > 0
    ensures (if Alone(e) then e[0] else Entry(e[0].task, Ready)) in Scheduled(e)
  {
    hide NextFrom, Survivors;
    var k := NextFrom(e, 1);
    if k < |e| {
      NextFirst(e);
      assert Scheduled(e)[1 + |Survivors(e[k + 1..])|] == Entry(e[0].task, Ready);
    } else {
      assert Scheduled(e)[0] == e[0];
    }
  }

  class Ring {
    var current: Task?
    var nextPid: nat
    /** The tasks whose frames were given back. */
    var freed: set<Task>
    ghost var tasks: seq<Task>
    /** Frames that were allocated for a task and never used or freed. */
    ghost var lost: nat

    ghost predicate Valid()
      reads this, tasks
    {
      && Linked(tasks) && (if tasks == [] then current == null else current == tasks[0])
      && (forall t :: t in tasks ==> t !in freed && |t.signals| == 32)
      && (forall i :: 1 <= i < |tasks| ==> tasks[i].state != Running)
    }

    constructor ()
      ensures Valid() && tasks == [] && nextPid == 1 && freed == {} && lost == 0
    {
      current, nextPid, freed, tasks, lost := null, 1, {}, [], 0;
    }

    /** A new task, ready, behind the current one; 0 if its frame or its stack's is not to be had. When only one of them
        is, nobody keeps or frees it. */
    method Create(taskFrame: bool, stackFrame: bool) returns (pid: nat, ghost t: Task?)
      requires Valid()
      modifies this, current
      ensures Valid()
      ensures !(taskFrame && stackFrame) ==> pid == 0 && tasks == old(tasks) && nextPid == old(nextPid)
      ensures lost == old(lost) + if taskFrame != stackFrame then 1 else 0
      ensures taskFrame && stackFrame ==> t != null && fresh(t) && pid == old(nextPid) == t.pid && t.state == Ready
      ensures taskFrame && stackFrame ==> nextPid == (old(nextPid) + 1) % 0x1_0000_0000
      ensures taskFrame && stackFrame ==> t.ppid == if old(current) == null then 0 else old(current).pid
      ensures taskFrame && stackFrame ==> tasks == if old(tasks) == [] then [t] else [old(tasks)[0], t] + old(tasks)[1..]
      ensures forall k :: k in old(tasks) ==> k.state == old(k.state)
    {
      t := null;
      if !taskFrame || !stackFrame {
        lost := lost + if taskFrame || stackFrame then 1 else 0;
        return 0, null;
      }
      var task := new Task(nextPid, if current == null then 0 else current.pid);
      t := task;
      pid := nextPid;
      nextPid := (nextPid + 1) % 0x1_0000_0000;
      if current == null {
        task.next := task;
        current := task;
        tasks := [task];
      } else {
        task.next := current.next;
        current.next := task;
        tasks := [tasks[0], task] + tasks[1..];
      }
    }

    /** Takes the task at place `i` out of the list, found by following the pointers from the current task. */
    method Unlink(task: Task, ghost i: nat)
      requires Linked(tasks) && i < |tasks| && task == tasks[i] && current == tasks[0]
      modifies (set t | t in tasks)`next, this`tasks
      ensures tasks == old(tasks[..i] + tasks[i + 1..]) && Linked(tasks) && task.next == old(task.next)
    {
      ghost var r, m := tasks, if i > 0 then i - 1 else |tasks| - 1;
      var prev := current;
      ghost var j := 0;
      LinkAt(r, 0);
      while prev != null && prev.next != task
        invariant j <= m && prev == r[j] && prev.next == r[if j + 1 < |r| then j + 1 else 0]
        decreases m - j
        modifies {}
      {
        OnceOnly(r, j, i);
        prev := prev.next;
        j := j + 1;
        LinkAt(r, j);
      }
      OnceOnly(r, j, i);
      prev.next := task.next;
      tasks := r[..i] + r[i + 1..];
      Relinked(r, i, m);
    }

    method Free(task: Task)
      modifies this`freed
      ensures freed == old(freed) + {task}
    {
      freed := freed + {task};
    }

    /** Ends a task of the ring; if it is the current one, its successor takes its place. The only task is its own
        successor, so it stays the current one although its frame was given back. */
    method Destroy(task: Task, ghost i: nat)
      requires Valid() && i < |tasks| && task == tasks[i]
      modifies this, (set t | t in tasks)`next
      ensures tasks == old(tasks[..i] + tasks[i + 1..]) && freed == old(freed) + {task}
      ensures Valid() <==> |old(tasks)| > 1
      ensures |old(tasks)| == 1 ==> current == task
      ensures nextPid == old(nextPid) && lost == old(lost)
    {
      hide Linked;
      LinkAt(tasks, i);
      RemovedIs(tasks, i);
      assert current == task ==> i == 0;
      Unlink(task, i);
      if current == task {
        current := task.next;
      }
      Free(task);
    }

    /** The task nearest to the current one with this number. */
    method Find(pid: nat) returns (t: Task?)
      requires Valid()
      ensures t == null ==> forall k :: k in tasks ==> k.pid != pid
      ensures t != null ==>
                exists i :: 0 <= i < |tasks| && t == tasks[i] && t.pid == pid && forall j :: 0 <= j < i ==> tasks[j].pid != pid
    {
      if current == null {
        return null;
      }
      t := current;
      ghost var i := 0;
      while true
        invariant i < |tasks| && t == tasks[i] && forall j :: 0 <= j < i ==> tasks[j].pid != pid
        decreases |tasks| - i
      {
        if t.pid == pid {
          return t;
        }
        t := t.next;
        i := i + 1;
        assert i < |tasks| ==> tasks[0] != tasks[i];
        if t == current {
          return null;
        }
      }
    }

    /** The first task behind the current one that can be dispatched, or the current one. */
    method Successor() returns (next: Task, ghost k: nat)
      requires Valid() && |tasks| > 0
      ensures k == NextFrom(Entries(tasks), 1) && next == tasks[if k < |tasks| then k else 0]
      ensures next == current <==> k == |tasks|
    {
      hide Linked;
      ghost var e := Entries(tasks);
      LinkAt(tasks, 0);
      next := current.next;
      k := 1;
      while next != current && (next.state == Terminated || next.state == Sleeping)
        invariant 1 <= k <= |tasks| && next == tasks[if k < |tasks| then k else 0]
        invariant NextFrom(e, 1) == NextFrom(e, k)
        decreases |tasks| - k
      {
        LinkAt(tasks, k);
        next := next.next;
        k := k + 1;
      }
      if k < |tasks| {
        OnceOnly(tasks, k, 0);
      }
    }

    method ReapOne(scan: Task, ghost p: nat) returns (n: Task)
      requires Linked(tasks) && 1 <= p < |tasks| && scan == tasks[p] && current == tasks[0]
      modifies this`tasks, this`freed, (set t | t in tasks)`next
      ensures Linked(tasks) && n == old(tasks[if p + 1 < |tasks| then p + 1 else 0])
      ensures tasks == if scan.state == Terminated then old(tasks[..p] + tasks[p + 1..]) else old(tasks)
      ensures freed == old(freed) + if scan.state == Terminated then {scan} else {}
      ensures forall t :: t in tasks ==> t in old(tasks)
    {
      hide Linked;
      LinkAt(tasks, p);
      n := scan.next;
      if scan.state == Terminated {
        RemovedIs(tasks, p);
        Unlink(scan, p);
        Free(scan);
      }
    }

    /** Unlinks and frees the terminated tasks from place `k` on. */
    method Reap(next: Task, ghost k: nat)
      requires Linked(tasks) && 1 <= k <= |tasks| && next == tasks[if k < |tasks| then k else 0] && current == tasks[0]
      modifies this`tasks, this`freed, (set t | t in tasks)`next
      ensures Linked(tasks) && forall t :: t in tasks ==> t in old(tasks)
      ensures Entries(tasks) == old(Entries(tasks)[..k] + Survivors(Entries(tasks)[k..]))
      ensures freed == old(freed) + Dead(old(Entries(tasks)[k..]))
    {
      hide Linked, Survivors, Names, Dead;
      ghost var e := Entries(tasks);
      ReapNamed(next, k, e);
      BetweenEnd(e, k);
      SurvivorsCurrent(e[k..]);
      EntriesNamed(tasks, e[..k] + Survivors(e[k..]));
    }

    method ReapNamed(next: Task, ghost k: nat, ghost e: seq<Entry<Task>>)
      requires Linked(tasks) && 1 <= k <= |tasks| && next == tasks[if k < |tasks| then k else 0] && current == tasks[0]
      requires e == Entries(tasks)
      modifies this`tasks, this`freed, (set t | t in tasks)`next
      ensures Linked(tasks) && forall t :: t in tasks ==> t in old(tasks)
      ensures Names(tasks, Between(e, k, |e|)) && freed == old(freed) + Dead(e[k..|e|])
    {
      hide Linked, Between, Names, Dead;
      ghost var q := k;
      var scan := next;
      BetweenStart(tasks, k);
      EachOnce(tasks);
      while scan != current
        invariant k <= q <= |e| && scan == e[if q < |e| then q else 0].task
        invariant Linked(tasks) && freed == old(freed) + Dead(e[k..q])
        invariant Names(tasks, Between(e, k, q))
        invariant forall t :: t in tasks ==> t in old(tasks)
        decreases |e| - q
      {
        ghost var p := BetweenAt(tasks, e, k, q);
        DeadNext(e, k, q);
        var n := ReapOne(scan, p);
        scan := n;
        q := q + 1;
      }
    }

    /** Hands the processor to the task at place `k`. */
    method Switch(start: Task, next: Task, ghost k: nat, ghost x: Entry<Task>, ghost s: seq<Entry<Task>>)
      requires Linked(tasks) && 1 <= k < |tasks| && next == tasks[k] && start == current == tasks[0]
      requires Entries(tasks)[k..] == [x] + s
      modifies this`current, this`tasks, start`state, next`state
      ensures Linked(tasks) && tasks == old(tasks[k..] + tasks[..k]) && current == next
      ensures Entries(tasks) == Turned(old(Entries(tasks)), k, x, s, start)
    {
      hide Linked, Turned;
      ghost var e := Entries(tasks);
      EachOnce(tasks);
      LinkedRotated(tasks, k);
      start.state := Ready;
      next.state := Running;
      current := next;
      tasks := tasks[k..] + tasks[..k];
      ghost var f := Turned(e, k, x, s, start);
      TurnedAt(e, k, x, s, start);
      EntriesNamed(tasks, f);
    }

    /** Dispatches the first successor that is neither terminated nor sleeping, reaps the terminated tasks behind it,
        and makes the outgoing task ready whatever it was. Without such a successor nothing changes, and a terminated
        current task then halts the machine. */
    method Schedule() returns (halted: bool)
      requires Valid()
      modifies this`current, this`tasks, this`freed, (set t | t in tasks)`next, (set t | t in tasks)`state
      ensures Valid() && forall t :: t in tasks ==> t in old(tasks)
      ensures tasks == [] <==> old(tasks) == []
      ensures old(tasks) != [] ==> Entries(tasks) == Scheduled(old(Entries(tasks)))
      ensures old(tasks) != [] ==> freed == old(freed) + Reaped(old(Entries(tasks)))
      ensures halted <==> old(tasks) != [] && Alone(old(Entries(tasks))) && old(tasks[0].state) == Terminated
    {
      hide Linked, Scheduled, Survivors, Dead, NextFrom, Names, OneRing, Tasks, Turned, Reaped;
      halted := false;
      if current == null {
        return;
      }
      ghost var e, was, gone := Entries(tasks), tasks, freed;
      RingIs(was);
      ScheduledRing(e);
      ReapedIs(e);
      var start := current;
      var next, k := Successor();
      Reap(next, k);
      if next == start {
        NothingReaped(e, k);
        StillRing(was, tasks, e, gone);
        return start.state == Terminated;
      }
      FirstSurvives(e, k);
      Switch(start, next, k, e[k], Survivors(e[k + 1..]));
      TurnedIsScheduled(e, k);
      assert freed == gone + Reaped(e) && Entries(tasks) == Scheduled(e);
      assert forall t :: t in was ==> t.signals == old(t.signals);
      StillRing(was, tasks, e, gone);
      forall t | t in tasks
        ensures |t.signals| == 32
      {
        assert t in was;
      }
    }

    method TickTask(t: Task, now: nat)
      requires |t.signals| == 32
      modifies t`state, t`exitCode, t`signals
      ensures t.Now() == Ticked(old(t.Now()), t.wakeTick, now)
    {
      hide DeliveredTo, Killer;
      if t.state == Sleeping && now >= t.wakeTick {
        t.state := Ready;
      }
      if t.state == Terminated {
        return;
      }
      ghost var g := t.signals;
      DeliveredEnds(g);
      var s := 0;
      while s < 32
        invariant s <= 32 && Killer(g, 0) == Killer(g, s) && t.signals == DeliveredTo(g, s)
        invariant t.state == old(if t.state == Sleeping && now >= t.wakeTick then Ready else t.state)
        invariant t.exitCode == old(t.exitCode)
      {
        DeliveredNext(g, s);
        KillerAt(g, s);
        if t.signals[s].pending && !t.signals[s].masked {
          t.signals := t.signals[s := t.signals[s].(pending := false)];
          if s == 9 {
            t.state, t.exitCode := Terminated, -9;
            return;
          }
          if t.signals[s].handled && (s == 2 || s == 15) {
            t.state, t.exitCode := Terminated, -s;
            return;
          }
        }
        s := s + 1;
      }
    }

    /** Ticks every task of the ring exactly once and leaves the ring as it is. */
    method Tick(now: nat)
      requires Valid()
      modifies (set t | t in tasks)`state, (set t | t in tasks)`exitCode, (set t | t in tasks)`signals
      ensures Valid()
      ensures forall t :: t in tasks ==> t.Now() == Ticked(old(t.Now()), t.wakeTick, now)
    {
      hide Linked, Ticked;
      if current == null {
        return;
      }
      TickRing(now);
      forall k | 0 <= k < |tasks|
        ensures |tasks[k].signals| == 32 && (tasks[k].state == Running ==> old(tasks[k].state) == Running)
      {
        TickMeans(old(tasks[k].Now()), tasks[k].wakeTick, now);
      }
    }

    method TickRing(now: nat)
      requires Linked(tasks) && |tasks| > 0 && current == tasks[0] && forall t :: t in tasks ==> |t.signals| == 32
      modifies (set t | t in tasks)`state, (set t | t in tasks)`exitCode, (set t | t in tasks)`signals
      ensures forall j :: 0 <= j < |tasks| ==> tasks[j].Now() == Ticked(old(tasks[j].Now()), tasks[j].wakeTick, now)
    {
      hide Linked, Ticked;
      var t := current;
      ghost var i := 0;
      EachOnce(tasks);
      while true
        invariant i < |tasks| && t == tasks[i]
        invariant forall j :: i <= j < |tasks| ==> tasks[j].Now() == old(tasks[j].Now())
        invariant forall j :: 0 <= j < i ==> tasks[j].Now() == Ticked(old(tasks[j].Now()), tasks[j].wakeTick, now)
        decreases |tasks| - i
      {
        TickTask(t, now);
        LinkAt(tasks, i);
        t := t.next;
        i := i + 1;
        if t == current {
          break;
        }
      }
    }

    /** Puts the current task to sleep for at least one tick and yields. It stays asleep exactly if no other task can
        be dispatched; otherwise the dispatcher has made it ready again. */
    method Sleep(ms: nat, now: nat) returns (halted: bool)
      requires Valid() && |tasks| > 0
      modifies this`current, this`tasks, this`freed, (set t | t in tasks)`next, (set t | t in tasks)`state, current`wakeTick
      ensures Valid() && !halted
      ensures var t := old(tasks[0]);
              && t in tasks && t.wakeTick == now + (if ms / 10 == 0 then 1 else ms / 10)
              && t.state == if Alone(old(Entries(tasks))) then Sleeping else Ready
    {
      hide Linked, Scheduled, Reaped;
      ghost var t, e, r := tasks[0], Entries(tasks), tasks;
      var ticks := ms / 10;
      if ticks == 0 {
        ticks := 1;
      }
      current.wakeTick := now + ticks;
      current.state := Sleeping;
      EachOnce(tasks);
      assert Entries(tasks) == e[0 := Entry(t, Sleeping)];
      NextSame(e, Entry(t, Sleeping), 1);
      OutgoingReady(Entries(tasks));
      halted := Schedule();
    }
  }

  /** A first task whose stack finds no frame: the frame of its record stays allocated, and there is no task. */
  method StacklessTask() returns (r: Ring)
    ensures fresh(r) && r.Valid() && r.tasks == [] && r.lost == 1
  {
    r := new Ring();
    var pid, t := r.Create(true, false);
  }
}

/** The scheduler's ring as a sequence that starts at the current task: what one call of schedule does to it, and what
    runs of calls keep and guarantee. */
module TaskRing {
  datatype State = Ready | Running | Blocked | Terminated | Sleeping

  datatype Entry<T> = Entry(task: T, state: State)

  predicate Dispatchable(s: State) { s != Terminated && s != Sleeping }

  /** First index from `j` on whose task can be dispatched, or the length. */
  function NextFrom<T>(r: seq<Entry<T>>, j: nat): (k: nat)
    requires j <= |r|
    ensures j <= k <= |r| && (k < |r| ==> Dispatchable(r[k].state))
    ensures forall i :: j <= i < k ==> !Dispatchable(r[i].state)
    decreases |r| - j
  {
    if j == |r| || Dispatchable(r[j].state) then j else NextFrom(r, j + 1)
  }

  /** The entries that are not terminated, in order. */
  function Survivors<T>(r: seq<Entry<T>>): seq<Entry<T>>
  {
    if r == [] then [] else (if r[0].state == Terminated then [] else [r[0]]) + Survivors(r[1..])
  }

  /** The outgoing task becomes ready whatever it was; the first dispatchable successor runs; terminated tasks from
      there on are reaped, those passed over stay. */
  function Scheduled<T>(r: seq<Entry<T>>): (s: seq<Entry<T>>)
    requires |r| > 0
    ensures |s| > 0
  {
    var k := NextFrom(r, 1);
    if k == |r| then r
    else Turn(r, k)
  }

  /** The ring with entry `k` first and running, the terminated behind it gone, and what was passed over at the end. */
  function Turn<T>(r: seq<Entry<T>>, k: nat): (s: seq<Entry<T>>)
    requires 1 <= k < |r|
    ensures |s| > 0
  {
    [Entry(r[k].task, Running)] + Survivors(r[k + 1..]) + [Entry(r[0].task, Ready)] + r[1..k]
  }

  ghost predicate Distinct<T>(r: seq<Entry<T>>)
  {
    forall i, j :: 0 <= i < j < |r| ==> r[i].task != r[j].task
  }

  ghost predicate NoneRunning<T>(r: seq<Entry<T>>)
  {
    forall i :: 0 <= i < |r| ==> r[i].state != Running
  }

  /** Each task once, and only the current one may be running. */
  ghost predicate OneRing<T>(r: seq<Entry<T>>)
  {
    |r| > 0 && Distinct(r) && NoneRunning(r[1..])
  }

  ghost function Tasks<T>(r: seq<Entry<T>>): set<T> { set i | 0 <= i < |r| :: r[i].task }

  ghost function Dead<T>(r: seq<Entry<T>>): set<T> { set i | 0 <= i < |r| && r[i].state == Terminated :: r[i].task }

  lemma SetApp<T>(a: seq<Entry<T>>, b: seq<Entry<T>>)
    ensures Tasks(a + b) == Tasks(a) + Tasks(b)
  {
    var s := a + b;
    forall x | x in Tasks(a) + Tasks(b)
      ensures x in Tasks(s)
    {
      if x in Tasks(a) {
        var i :| 0 <= i < |a| && a[i].task == x;
        assert s[i].task == x;
      } else {
        var i :| 0 <= i < |b| && b[i].task == x;
        assert s[|a| + i].task == x;
      }
    }
  }

  lemma DeadApp<T>(a: seq<Entry<T>>, b: seq<Entry<T>>)
    ensures Dead(a + b) == Dead(a) + Dead(b)
  {
    var s := a + b;
    forall x | x in Dead(a) + Dead(b)
      ensures x in Dead(s)
    {
      if x in Dead(a) {
        var i :| 0 <= i < |a| && a[i].state == Terminated && a[i].task == x;
        assert s[i].task == x;
      } else {
        var i :| 0 <= i < |b| && b[i].state == Terminated && b[i].task == x;
        assert s[|a| + i].task == x;
      }
    }
  }

  lemma DeadInside<T>(r: seq<Entry<T>>)
    ensures Dead(r) <= Tasks(r)
  {
  }

  lemma DistinctApp<T>(a: seq<Entry<T>>, b: seq<Entry<T>>)
    ensures Distinct(a + b) <==> Distinct(a) && Distinct(b) && Tasks(a) !! Tasks(b)
  {
    var s := a + b;
    assert forall i :: 0 <= i < |a| ==> s[i] == a[i];
    assert forall i :: 0 <= i < |b| ==> b[i] == s[|a| + i];
    if Distinct(s) {
      forall i, j | 0 <= i < |a| && 0 <= j < |b|
        ensures a[i].task != b[j].task
      {
        assert s[i].task != s[|a| + j].task;
      }
    }
    if Distinct(a) && Distinct(b) && Tasks(a) !! Tasks(b) {
      forall i, j | 0 <= i < j < |s|
        ensures s[i].task != s[j].task
      {
        if i < |a| <= j {
          assert a[i].task in Tasks(a) && b[j - |a|].task in Tasks(b);
        }
      }
    }
  }

  lemma TasksApp<T>(a: seq<Entry<T>>, b: seq<Entry<T>>)
    ensures Tasks(a + b) == Tasks(a) + Tasks(b)
    ensures Distinct(a + b) <==> Distinct(a) && Distinct(b) && Tasks(a) !! Tasks(b)
    ensures NoneRunning(a + b) <==> NoneRunning(a) && NoneRunning(b)
  {
    SetApp(a, b);
    DistinctApp(a, b);
    var s := a + b;
    assert forall i :: 0 <= i < |a| ==> a[i] == s[i];
    assert forall i :: 0 <= i < |b| ==> b[i] == s[|a| + i];
  }

  lemma TasksOne<T>(e: Entry<T>)
    ensures Tasks([e]) == {e.task} && Distinct([e]) && (NoneRunning([e]) <==> e.state != Running)
    ensures Dead([e]) == if e.state == Terminated then {e.task} else {}
  {
    assert [e][0].task in Tasks([e]);
    assert e.state == Terminated ==> [e][0].task in Dead([e]);
  }

  lemma {:induction false} SurvivorsKept<T>(r: seq<Entry<T>>)
    requires Distinct(r)
    ensures Distinct(Survivors(r)) && Tasks(Survivors(r)) == Tasks(r) - Dead(r)
    ensures NoneRunning(r) ==> NoneRunning(Survivors(r))
    decreases |r|
  {
    hide Distinct, Tasks, Dead, NoneRunning;
    if r == [] {
      Nothing<T>();
    } else {
      var e, t := [r[0]], r[1..];
      assert r == e + t && [] + Survivors(t) == Survivors(t);
      TasksApp(e, t);
      DeadApp(e, t);
      DeadInside(t);
      TasksOne(r[0]);
      SurvivorsKept(t);
      TasksApp(e, Survivors(t));
    }
  }

  lemma Nothing<T>()
    ensures var n: seq<Entry<T>> := []; Distinct(n) && Tasks(n) == {} && Dead(n) == {} && NoneRunning(n)
  {
  }

  /** A current task that went to sleep is ready again when the next one is dispatched. */
  lemma SleeperReady()
    ensures Scheduled([Entry(0, Sleeping), Entry(1, Ready)]) == [Entry(1, Running), Entry(0, Ready)]
  {
  }

  /** A blocked task is dispatched like a ready one. */
  lemma BlockedRuns()
    ensures Scheduled([Entry(0, Running), Entry(1, Blocked)]) == [Entry(1, Running), Entry(0, Ready)]
  {
  }

  /** Dispatching keeps one ring in which each live task appears once and only the current one runs. Exactly the
      terminated tasks behind the dispatched one leave it. */
  lemma ScheduledKeeps<T>(r: seq<Entry<T>>)
    requires OneRing(r)
    ensures OneRing(Scheduled(r))
    ensures var k := NextFrom(r, 1); Tasks(Scheduled(r)) == Tasks(r) - if k < |r| then Dead(r[k + 1..]) else {}
  {
    var k := NextFrom(r, 1);
    if k < |r| {
      Rearranged(r, k);
    }
  }

  lemma Rearranged<T>(r: seq<Entry<T>>, k: nat)
    requires OneRing(r) && 1 <= k < |r|
    ensures var q := [Entry(r[k].task, Running)] + Survivors(r[k + 1..]) + [Entry(r[0].task, Ready)] + r[1..k];
            OneRing(q) && Tasks(q) == Tasks(r) - Dead(r[k + 1..])
  {
    hide Distinct, Tasks, Dead, NoneRunning, Survivors;
    var t, b := r[1..k], r[k + 1..];
    var s, x, y := Survivors(b), r[0].task, r[k].task;
    assert r == [r[0]] + (t + ([r[k]] + b)) && r[1..] == t + ([r[k]] + b);
    Parts(r[0], t, r[k], b);
    SurvivorsKept(b);
    DeadInside(b);
    var q := [Entry(y, Running)] + s + [Entry(x, Ready)] + t;
    assert q == [Entry(y, Running)] + (s + ([Entry(x, Ready)] + t)) && q[1..] == s + ([Entry(x, Ready)] + t);
    Parts(Entry(y, Running), s, Entry(x, Ready), t);
  }

  lemma Parts<T>(d: Entry<T>, a: seq<Entry<T>>, e: Entry<T>, b: seq<Entry<T>>)
    ensures Tasks([d] + (a + ([e] + b))) == {d.task} + Tasks(a) + {e.task} + Tasks(b)
    ensures Distinct([d] + (a + ([e] + b))) <==>
            && Distinct(a) && Distinct(b) && d.task != e.task && Tasks(a) !! Tasks(b)
            && d.task !in Tasks(a) && d.task !in Tasks(b) && e.task !in Tasks(a) && e.task !in Tasks(b)
    ensures NoneRunning(a + ([e] + b)) <==> NoneRunning(a) && e.state != Running && NoneRunning(b)
  {
    hide Distinct, Tasks, NoneRunning;
    TasksApp([d], a + ([e] + b));
    TasksApp(a, [e] + b);
    TasksApp([e], b);
    TasksOne(d);
    TasksOne(e);
  }

  // Runs of schedule

  function Calls<T>(r: seq<Entry<T>>, n: nat): seq<Entry<T>>
    requires |r| > 0
    ensures |Calls(r, n)| > 0
  {
    if n == 0 then r else Scheduled(Calls(r, n - 1))
  }

  /** The tasks in ring order. */
  function Order<T>(r: seq<Entry<T>>): (o: seq<T>)
    ensures |o| == |r| && forall i :: 0 <= i < |r| ==> o[i] == r[i].task
  {
    seq(|r|, i requires 0 <= i < |r| => r[i].task)
  }

  predicate OthersReady<T>(r: seq<Entry<T>>) { forall i :: 1 <= i < |r| ==> r[i].state == Ready }

  /** With all other tasks ready, `n` calls rotate the ring by `n`: each call runs the next task, and |r| calls run
      each task exactly once and come back to the first. */
  lemma {:induction false} RoundRobin<T>(r: seq<Entry<T>>, n: nat)
    requires 1 < |r| && n <= |r| && OthersReady(r)
    ensures var s := Calls(r, n);
            && Order(s) == Order(r)[n..] + Order(r)[..n]
            && OthersReady(s) && (n > 0 ==> s[0].state == Running)
    decreases n
  {
    hide Scheduled, Order, OthersReady;
    if n > 0 {
      RoundRobin(r, n - 1);
      var q, o := Calls(r, n - 1), Order(r);
      OneTurn(q);
      TurnedOn(o, n);
    }
  }

  lemma TurnedOn<T>(o: seq<T>, n: nat)
    requires 0 < n <= |o|
    ensures var t := o[n - 1..] + o[..n - 1]; t[0] == o[n - 1] && t[1..] + [t[0]] == o[n..] + o[..n]
  {
    assert o[..n] == o[..n - 1] + [o[n - 1]];
  }

  lemma OneTurn<T>(q: seq<Entry<T>>)
    requires 1 < |q| && OthersReady(q)
    ensures Order(Scheduled(q)) == Order(q)[1..] + [Order(q)[0]]
    ensures OthersReady(Scheduled(q)) && Scheduled(q)[0].state == Running
  {
    hide Scheduled, Survivors, NextFrom, Order;
    Rotated(q);
    var s := [Entry(q[1].task, Running)] + q[2..] + [Entry(q[0].task, Ready)];
    assert forall i :: 0 <= i < |q| - 1 ==> s[i].task == q[i + 1].task;
  }

  lemma Rotated<T>(q: seq<Entry<T>>)
    requires 1 < |q| && OthersReady(q)
    ensures Scheduled(q) == [Entry(q[1].task, Running)] + q[2..] + [Entry(q[0].task, Ready)]
  {
    NoneTerminated(q[2..]);
  }

  lemma {:induction false} NoneTerminated<T>(r: seq<Entry<T>>)
    requires forall i :: 0 <= i < |r| ==> r[i].state != Terminated
    ensures Survivors(r) == r
    decreases |r|
  {
    if r != [] {
      NoneTerminated(r[1..]);
    }
  }

  lemma {:induction false} SurvivorsApp<T>(a: seq<Entry<T>>, b: seq<Entry<T>>)
    ensures Survivors(a + b) == Survivors(a) + Survivors(b)
    ensures |Survivors(a)| <= |a|
    decreases |a|
  {
    if a == [] {
      assert a + b == b;
    } else {
      assert (a + b)[1..] == a[1..] + b;
      SurvivorsApp(a[1..], b);
    }
  }

  lemma {:induction false} CallsShift<T>(r: seq<Entry<T>>, n: nat)
    requires |r| > 0
    ensures Calls(Scheduled(r), n) == Calls(r, n + 1)
  {
    if n > 0 {
      CallsShift(r, n - 1);
    }
  }

  lemma SurvivorsOne<T>(e: Entry<T>)
    ensures Survivors([e]) == if e.state == Terminated then [] else [e]
  {
    assert [e][1..] == [];
  }

  /** A task passed over for another one comes nearer. */
  lemma ComesNearer<T>(r: seq<Entry<T>>, j: nat) returns (p: nat)
    requires 1 < j < |r| && NextFrom(r, 1) < j && Dispatchable(r[j].state)
    ensures 1 <= p < j && p < |Scheduled(r)| && Scheduled(r)[p] == r[j]
  {
    hide Survivors, NextFrom, Scheduled;
    NextFirst(r);
    var k := NextFrom(r, 1);
    var a, b := r[k + 1..j], r[j + 1..];
    assert r[k + 1..] == a + ([r[j]] + b);
    SurvivorsApp(a, [r[j]] + b);
    SurvivorsApp([r[j]], b);
    SurvivorsOne(r[j]);
    p := 1 + |Survivors(a)|;
    var f, g := [Entry(r[k].task, Running)], [Entry(r[0].task, Ready)] + r[1..k];
    assert f + Survivors(r[k + 1..]) + [Entry(r[0].task, Ready)] + r[1..k] == f + Survivors(a) + ([r[j]] + (Survivors(b) + g));
  }

  lemma NextFirst<T>(r: seq<Entry<T>>)
    requires |r| > 0 && NextFrom(r, 1) < |r|
    ensures Scheduled(r) == Turn(r, NextFrom(r, 1))
  {
    hide NextFrom, Turn;
  }

  lemma NextRuns<T>(r: seq<Entry<T>>)
    requires |r| > 0
    ensures NextFrom(r, 1) < |r| ==> Scheduled(r)[0] == Entry(r[NextFrom(r, 1)].task, Running)
  {
  }

  /** No starvation: a task that can be dispatched and stands at place `j` runs within `j` calls. */
  lemma {:induction false} NoStarvation<T>(r: seq<Entry<T>>, j: nat) returns (m: nat)
    requires 1 <= j < |r| && Dispatchable(r[j].state)
    ensures 1 <= m <= j && Calls(r, m)[0] == Entry(r[j].task, Running)
    decreases j
  {
    hide Scheduled, Survivors;
    if NextFrom(r, 1) >= j {
      m := 1;
      assert Calls(r, 1) == Scheduled(Calls(r, 0));
      NextRuns(r);
    } else {
      var p := ComesNearer(r, j);
      m := NoStarvation(Scheduled(r), p);
      CallsShift(r, m);
      m := m + 1;
    }
  }

  // Runs of all operations

  /** task_create behind the current task, task_destroy of place `i`, schedule, and state changes that start nobody. */
  ghost predicate Step<T(!new)>(r: seq<Entry<T>>, s: seq<Entry<T>>)
  {
    || (exists e: Entry<T> :: |r| > 0 && e.state == Ready && e.task !in Tasks(r) && s == [r[0], e] + r[1..])
    || (exists i :: 0 <= i < |r| && |r| > 1 && s == r[..i] + r[i + 1..])
    || (|r| > 0 && s == Scheduled(r))
    || (|s| == |r| && forall i :: 0 <= i < |r| ==>
          s[i].task == r[i].task && (s[i].state == Running ==> r[i].state == Running))
  }

  lemma CreatedKeeps<T>(r: seq<Entry<T>>, e: Entry<T>)
    requires OneRing(r) && e.state == Ready && e.task !in Tasks(r)
    ensures OneRing([r[0], e] + r[1..]) && Tasks([r[0], e] + r[1..]) == Tasks(r) + {e.task}
  {
    hide Distinct, Tasks, NoneRunning;
    var t := r[1..];
    assert r == [r[0]] + t && [r[0], e] + t == [r[0]] + ([e] + t);
    TasksApp([r[0]], t);
    TasksApp([r[0]], [e] + t);
    TasksApp([e], t);
    TasksOne(r[0]);
    TasksOne(e);
    assert ([r[0], e] + t)[1..] == [e] + t;
  }

  lemma DestroyedKeeps<T>(r: seq<Entry<T>>, i: nat)
    requires OneRing(r) && i < |r| && |r| > 1
    ensures OneRing(r[..i] + r[i + 1..]) && Tasks(r[..i] + r[i + 1..]) == Tasks(r) - {r[i].task}
  {
    hide Distinct, Tasks, NoneRunning;
    var a, b := r[..i], r[i + 1..];
    assert r == a + ([r[i]] + b);
    TasksApp(a, [r[i]] + b);
    TasksApp([r[i]], b);
    TasksOne(r[i]);
    TasksApp(a, b);
    if i == 0 {
      assert r[1..] == [r[1]] + r[2..] && (a + b)[1..] == r[2..];
      TasksApp([r[1]], r[2..]);
    } else {
      assert r[1..] == r[1..i] + ([r[i]] + b) && (a + b)[1..] == r[1..i] + b;
      TasksApp(r[1..i], [r[i]] + b);
      TasksApp(r[1..i], b);
    }
  }

  /** Every run of the scheduler's operations keeps one ring: each task in it once, and nobody but the current task
      running. */
  lemma {:induction false} RunKeeps<T(!new)>(rings: seq<seq<Entry<T>>>, k: nat)
    requires k < |rings| && OneRing(rings[0])
    requires forall j :: 0 <= j < |rings| - 1 ==> Step(rings[j], rings[j + 1])
    ensures OneRing(rings[k])
    decreases k
  {
    hide Scheduled;
    if k > 0 {
      RunKeeps(rings, k - 1);
      StepKeeps(rings[k - 1], rings[k]);
    }
  }

  lemma StepKeeps<T(!new)>(r: seq<Entry<T>>, s: seq<Entry<T>>)
    requires OneRing(r) && Step(r, s)
    ensures OneRing(s)
  {
    hide Scheduled;
    if e: Entry<T> :| |r| > 0 && e.state == Ready && e.task !in Tasks(r) && s == [r[0], e] + r[1..] {
      CreatedKeeps(r, e);
    } else if i :| 0 <= i < |r| && |r| > 1 && s == r[..i] + r[i + 1..] {
      DestroyedKeeps(r, i);
    } else if s == Scheduled(r) {
      ScheduledKeeps(r);
    } else {
      assert forall i :: 1 <= i < |r| ==> r[i] == r[1..][i - 1] && s[i] == s[1..][i - 1];
    }
  }
}

/** The task ring as the kernel keeps it: a circular doubly linked list scanned through its links
    (kernel/src/kernel/sched.c, kernel/src/kernel/pit.c). */
module Scheduler {
  import opened SchedSpec
  import S = SchedSpec

  class TaskNode {
    const id: nat
    var state: TaskState
    var wake: nat
    var next: TaskNode?
    var prev: TaskNode?

    constructor (pid: nat, w: nat)
      ensures id == pid && state == Ready && wake == w && next == null && prev == null
    {
      id, state, wake, next, prev := pid, Ready, w, null, null;
    }
  }

  function Succ(i: nat, n: nat): (j: nat)
    requires i < n
    ensures j < n
  {
    if i + 1 < n then i + 1 else 0
  }

  function Pred(i: nat, n: nat): (j: nat)
    requires i < n
    ensures j < n
  {
    if i > 0 then i - 1 else n - 1
  }

  ghost predicate Within(ring: seq<TaskNode>, repr: set<TaskNode>) {
    forall i :: 0 <= i < |ring| ==> ring[i] in repr
  }

  /** The nodes of `ring`, all from `repr`, are distinct and linked in a circle both ways. */
  ghost predicate Linked(ring: seq<TaskNode>, repr: set<TaskNode>)
    reads repr`next, repr`prev
  {
    && Within(ring, repr)
    && (forall i, j :: 0 <= i < j < |ring| ==> ring[i] != ring[j])
    && (forall i {:trigger ring[i].next} :: 0 <= i < |ring| ==> ring[i].next == ring[Succ(i, |ring|)])
    && (forall i {:trigger ring[i].prev} :: 0 <= i < |ring| ==> ring[i].prev == ring[Pred(i, |ring|)])
  }

  lemma LinkedNext(ring: seq<TaskNode>, repr: set<TaskNode>, i: nat)
    requires Linked(ring, repr) && i < |ring|
    ensures ring[i].next == ring[Succ(i, |ring|)] && ring[i].prev == ring[Pred(i, |ring|)]
    ensures forall j :: 0 <= j < |ring| && j != i ==> ring[j] != ring[i]
    ensures forall a, b :: 0 <= a < b < |ring| ==> ring[a] != ring[b]
  {
  }

  lemma NextIs(ring: seq<TaskNode>, repr: set<TaskNode>, i: nat)
    requires Linked(ring, repr) && i < |ring|
    ensures Within(ring, repr) && ring[i] in repr && ring[i].next == ring[Succ(i, |ring|)]
    ensures ring[Succ(i, |ring|)] == ring[0] <==> Succ(i, |ring|) == 0
    ensures forall j :: 0 <= j < |ring| && j != i ==> ring[j] != ring[i]
  {
  }

  /** What the step machine sees of the nodes. */
  ghost function TasksOf(ring: seq<TaskNode>, repr: set<TaskNode>): (r: seq<Task>)
    requires Within(ring, repr)
    reads repr`state, repr`wake
    ensures |r| == |ring|
  {
    if ring == [] then []
    else
      var t := ring[|ring| - 1];
      TasksOf(ring[..|ring| - 1], repr) + [Task(t.id, t.state, t.wake)]
  }

  lemma {:induction false} TaskAt(ring: seq<TaskNode>, repr: set<TaskNode>, i: nat)
    requires Within(ring, repr) && i < |ring|
    ensures TasksOf(ring, repr)[i] == Task(ring[i].id, ring[i].state, ring[i].wake)
  {
    if i < |ring| - 1 {
      TaskAt(ring[..|ring| - 1], repr, i);
    }
  }

  /** The body of the waking loop, for the node at position `i`. */
  method WakeNode(n: TaskNode, now: nat, ghost ring: seq<TaskNode>, ghost repr: set<TaskNode>, ghost i: nat)
    requires Within(ring, repr) && i < |ring| && ring[i] == n && forall j :: 0 <= j < |ring| && j != i ==> ring[j] != n
    modifies n`state, n`wake
    ensures TasksOf(ring, repr) == old(TasksOf(ring, repr))[i := WakeUp(old(TasksOf(ring, repr))[i], now)]
  {
    hide TasksOf;
    ghost var tasks := TasksOf(ring, repr);
    forall j | 0 <= j < |ring|
      ensures tasks[j] == Task(ring[j].id, ring[j].state, ring[j].wake)
    {
      TaskAt(ring, repr, j);
    }
    if n.state == Blocked && n.wake > 0 {
      if now >= n.wake {
        n.state := Ready;
        n.wake := 0;
      }
    }
    forall j | 0 <= j < |ring|
      ensures TasksOf(ring, repr)[j] == if j == i then WakeUp(tasks[i], now) else tasks[j]
    {
      TaskAt(ring, repr, j);
    }
  }

  /** The first `k` tasks woken. */
  ghost function WakeSome(ring: seq<Task>, now: nat, k: nat): (r: seq<Task>)
    requires k <= |ring|
    ensures |r| == |ring|
  {
    WakeAll(ring[..k], now) + ring[k..]
  }

  lemma WakeOneMore(ring: seq<Task>, now: nat, k: nat)
    requires k < |ring|
    ensures WakeSome(ring, now, k)[k] == ring[k]
    ensures WakeSome(ring, now, k)[k := WakeUp(ring[k], now)] == WakeSome(ring, now, k + 1)
    ensures WakeSome(ring, now, 0) == ring && WakeSome(ring, now, |ring|) == WakeAll(ring, now)
  {
  }

  /** Waking seen at the nodes. */
  lemma NodesWoken(ring: seq<TaskNode>, repr: set<TaskNode>, tasks: seq<Task>, now: nat)
    requires Within(ring, repr) && |tasks| == |ring| && TasksOf(ring, repr) == WakeAll(tasks, now)
    ensures forall j :: 0 <= j < |ring| ==>
      if tasks[j].state == Blocked && 0 < tasks[j].wake <= now then ring[j].state == Ready && ring[j].wake == 0
      else ring[j].state == tasks[j].state && ring[j].wake == tasks[j].wake
  {
    hide TasksOf;
    forall j | 0 <= j < |ring|
      ensures WakeUp(tasks[j], now) == Task(ring[j].id, ring[j].state, ring[j].wake)
    {
      TaskAt(ring, repr, j);
    }
  }

  method SetNodeState(n: TaskNode, st: TaskState, ghost ring: seq<TaskNode>, ghost repr: set<TaskNode>, ghost i: nat)
    requires Within(ring, repr) && i < |ring| && ring[i] == n && forall j :: 0 <= j < |ring| && j != i ==> ring[j] != n
    modifies n`state
    ensures TasksOf(ring, repr) == S.SetState(old(TasksOf(ring, repr)), i, st)
  {
    hide TasksOf;
    ghost var tasks := TasksOf(ring, repr);
    forall j | 0 <= j < |ring|
      ensures tasks[j] == Task(ring[j].id, ring[j].state, ring[j].wake)
    {
      TaskAt(ring, repr, j);
    }
    n.state := st;
    forall j | 0 <= j < |ring|
      ensures TasksOf(ring, repr)[j] == if j == i then tasks[i].(state := st) else tasks[j]
    {
      TaskAt(ring, repr, j);
    }
  }

  method SetNodeWake(n: TaskNode, wake: nat, ghost ring: seq<TaskNode>, ghost repr: set<TaskNode>, ghost i: nat)
    requires Within(ring, repr) && i < |ring| && ring[i] == n && forall j :: 0 <= j < |ring| && j != i ==> ring[j] != n
    modifies n`wake
    ensures TasksOf(ring, repr) == old(TasksOf(ring, repr))[i := old(TasksOf(ring, repr))[i].(wake := wake)]
  {
    hide TasksOf;
    ghost var tasks := TasksOf(ring, repr);
    forall j | 0 <= j < |ring|
      ensures tasks[j] == Task(ring[j].id, ring[j].state, ring[j].wake)
    {
      TaskAt(ring, repr, j);
    }
    n.wake := wake;
    forall j | 0 <= j < |ring|
      ensures TasksOf(ring, repr)[j] == if j == i then tasks[i].(wake := wake) else tasks[j]
    {
      TaskAt(ring, repr, j);
    }
  }

  /** One pass of the waking loop: wake the node if it is due and move on. */
  method WakeStep(iter: TaskNode, now: nat, ghost ring: seq<TaskNode>, ghost repr: set<TaskNode>, ghost i: nat,
                  ghost tasks: seq<Task>) returns (next: TaskNode)
    requires Linked(ring, repr) && i < |ring| == |tasks| && ring[i] == iter
    requires TasksOf(ring, repr) == WakeSome(tasks, now, i)
    modifies repr`state, repr`wake
    ensures TasksOf(ring, repr) == WakeSome(tasks, now, i + 1)
    ensures next == ring[Succ(i, |ring|)] && (next == ring[0] <==> Succ(i, |ring|) == 0)
  {
    hide Linked, TasksOf, WakeSome;
    NextIs(ring, repr, i);
    WakeOneMore(tasks, now, i);
    WakeNode(iter, now, ring, repr, i);
    next := iter.next;
  }

  /** Position in the full circle of position `i` of the circle without `k`. */
  function Skip(i: nat, k: nat): nat { if i < k then i else i + 1 }

  /** The neighbours of a position, once position `k` has been taken out. */
  lemma SkipNeighbours<T>(was: seq<T>, k: nat, i: nat)
    requires k < |was| && i < |was| - 1
    ensures var n, j := |was|, Skip(i, k);
      && j < n && j != k && Without(was, k)[i] == was[j]
      && Without(was, k)[Succ(i, n - 1)] == was[if j == Pred(k, n) then Succ(k, n) else Succ(j, n)]
      && Without(was, k)[Pred(i, n - 1)] == was[if j == Succ(k, n) then Pred(k, n) else Pred(j, n)]
  {
  }

  /** Node `t`, position `j` of `was`, has the neighbours it should have in the circle without `k`. */
  ghost predicate Rejoined(t: TaskNode, was: seq<TaskNode>, k: nat, j: nat)
    requires k < |was| && j < |was|
    reads t`next, t`prev
  {
    && t.next == was[if j == Pred(k, |was|) then Succ(k, |was|) else Succ(j, |was|)]
    && t.prev == was[if j == Succ(k, |was|) then Pred(k, |was|) else Pred(j, |was|)]
  }

  lemma LinkWithout(was: seq<TaskNode>, k: nat, i: nat)
    requires k < |was| && i < |was| - 1 && Skip(i, k) < |was| && Rejoined(was[Skip(i, k)], was, k, Skip(i, k))
    ensures var r := Without(was, k);
      r[i] == was[Skip(i, k)] && r[i].next == r[Succ(i, |r|)] && r[i].prev == r[Pred(i, |r|)]
  {
    hide Succ, Pred, Skip, Without;
    SkipNeighbours(was, k, i);
  }

  lemma DistinctWithout<T>(was: seq<T>, k: nat)
    requires k < |was| && forall i, j :: 0 <= i < j < |was| ==> was[i] != was[j]
    ensures var r := Without(was, k); forall i, j :: 0 <= i < j < |r| ==> r[i] != r[j]
  {
  }

  lemma LinkedWithout(was: seq<TaskNode>, repr: set<TaskNode>, k: nat)
    requires Within(was, repr) && k < |was|
    requires forall j {:trigger Rejoined(was[j], was, k, j)} :: 0 <= j < |was| && j != k ==> Rejoined(was[j], was, k, j)
    requires forall i, j :: 0 <= i < j < |was| ==> was[i] != was[j]
    ensures Linked(Without(was, k), repr - {was[k]})
  {
    hide Rejoined, Without, Succ, Pred;
    var r := Without(was, k);
    forall i | 0 <= i < |r|
      ensures r[i] in repr - {was[k]} && r[i].next == r[Succ(i, |r|)] && r[i].prev == r[Pred(i, |r|)]
    {
      assert Rejoined(was[Skip(i, k)], was, k, Skip(i, k));
      LinkWithout(was, k, i);
    }
    DistinctWithout(was, k);
  }

  /** The two stores that join the neighbours of `task`. */
  method Unlink(task: TaskNode, ghost was: seq<TaskNode>, ghost repr: set<TaskNode>, ghost k: nat)
    requires Linked(was, repr) && 1 < |was| && k < |was| && was[k] == task
    modifies repr`next, repr`prev
    ensures forall j {:trigger Rejoined(was[j], was, k, j)} :: 0 <= j < |was| && j != k ==> Rejoined(was[j], was, k, j)
  {
    ghost var n := |was|;
    LinkedNext(was, repr, k);
    LinkedNext(was, repr, Pred(k, n));
    LinkedNext(was, repr, Succ(k, n));
    task.prev.next := task.next;
    task.next.prev := task.prev;
  }

  /** The circle is open between its last node and its first, with `task` in between. */
  ghost predicate Opened(ring: seq<TaskNode>, task: TaskNode)
    reads ring, task
  {
    && ring != [] && (forall i, j :: 0 <= i < j < |ring| ==> ring[i] != ring[j])
    && (forall i {:trigger ring[i].next} :: 0 <= i < |ring| ==>
         ring[i].next == if i + 1 < |ring| then ring[i + 1] else task)
    && (forall i {:trigger ring[i].prev} :: 0 <= i < |ring| ==> ring[i].prev == if i > 0 then ring[i - 1] else task)
    && task.next == ring[0] && task.prev == ring[|ring| - 1]
  }

  /** The four stores that put `task` between the tail and the head. */
  method LinkTail(head: TaskNode, task: TaskNode, ghost ring: seq<TaskNode>, ghost repr: set<TaskNode>)
    requires Linked(ring, repr) && ring != [] && head == ring[0] && task !in repr
    modifies repr`next, repr`prev, task`next, task`prev
    ensures Opened(ring, task)
  {
    LinkedNext(ring, repr, 0);
    var tail := head.prev;
    tail.next := task;
    task.prev := tail;
    task.next := head;
    head.prev := task;
  }

  lemma LinkedGrown(ring: seq<TaskNode>, repr: set<TaskNode>, task: TaskNode)
    requires Within(ring, repr) && task !in repr
    requires if ring == [] then task.next == task && task.prev == task else Opened(ring, task)
    ensures Linked(ring + [task], repr + {task})
  {
    var r := ring + [task];
    forall i | 0 <= i < |r|
      ensures r[i].next == r[Succ(i, |r|)] && r[i].prev == r[Pred(i, |r|)]
    {
      assert i < |ring| ==> r[i] == ring[i];
    }
  }

  /** The tasks of the circle without one node. */
  lemma TasksWithout(ring: seq<TaskNode>, repr: set<TaskNode>, k: nat)
    requires Within(ring, repr) && k < |ring|
    ensures Within(Without(ring, k), repr) && TasksOf(Without(ring, k), repr) == Without(TasksOf(ring, repr), k)
  {
    hide TasksOf;
    var r := Without(ring, k);
    forall i | 0 <= i < |r|
      ensures TasksOf(r, repr)[i] == Without(TasksOf(ring, repr), k)[i]
    {
      TaskAt(r, repr, i);
      TaskAt(ring, repr, Skip(i, k));
    }
  }

  lemma TasksSame(ring: seq<TaskNode>, a: set<TaskNode>, b: set<TaskNode>)
    requires Within(ring, a) && Within(ring, b)
    ensures TasksOf(ring, a) == TasksOf(ring, b)
  {
    hide TasksOf;
    forall i | 0 <= i < |ring|
      ensures TasksOf(ring, a)[i] == TasksOf(ring, b)[i]
    {
      TaskAt(ring, a, i);
      TaskAt(ring, b, i);
    }
  }

  lemma NotSurviving(s: Sched, k: nat)
    requires Inv(s) && k < |s.ring| && k != s.cur && s.ring[k].state == Dead
    ensures !Survives(s, k) && k != s.idle
  {
  }

  lemma Surviving(s: Sched)
    requires s.cur < |s.ring| && forall i :: 0 <= i < |s.ring| && i != s.cur ==> s.ring[i].state != Dead
    ensures forall i :: 0 <= i < |s.ring| ==> Survives(s, i)
  {
  }

  /** The nodes left are among those there were, and none is missing but dead ones other than `keep`. */
  ghost predicate OnlyDeadGone(was: seq<TaskNode>, now: seq<TaskNode>, keep: TaskNode)
    reads was`state
  {
    && (forall n :: n in now ==> n in was)
    && (forall n :: n in was && (n == keep || n.state != Dead) ==> n in now)
  }

  lemma GoneNone(ring: seq<TaskNode>, keep: TaskNode)
    ensures OnlyDeadGone(ring, ring, keep)
  {
  }

  lemma GoneAll(was: seq<TaskNode>, now: seq<TaskNode>, c: nat)
    requires c < |now| && OnlyDeadGone(was, now, now[c])
    requires forall i :: 0 <= i < |now| && i != c ==> now[i].state != Dead
    ensures forall n :: n in was && (n == now[c] || n.state != Dead) ==> n in now
    ensures forall n :: n in now ==> n in was && (n == now[c] || n.state != Dead)
  {
  }

  lemma GoneWithout(was: seq<TaskNode>, now: seq<TaskNode>, keep: TaskNode, k: nat)
    requires OnlyDeadGone(was, now, keep) && k < |now| && now[k].state == Dead && now[k] != keep
    ensures OnlyDeadGone(was, Without(now, k), keep)
  {
    forall n | n in now && n != now[k]
      ensures n in Without(now, k)
    {
      var i :| 0 <= i < |now| && now[i] == n;
      ShiftWithout(now, k, i);
    }
  }

  /** One link further along the ring. */
  lemma AtStep(cur: nat, d: nat, n: nat)
    requires cur < n && d <= n
    ensures At(cur, 0, n) == cur && Succ(At(cur, d, n), n) == if d < n then At(cur, d + 1, n) else At(cur, 1, n)
    ensures d < n ==> (At(cur, d + 1, n) == cur <==> d + 1 == n)
  {
  }

  class RunQueue {
    var head: TaskNode?
    var current: TaskNode?
    var idle: TaskNode?
    ghost var ring: seq<TaskNode>
    ghost var repr: set<TaskNode>
    ghost var cur: nat
    ghost var idl: nat

    ghost predicate RingOk()
      reads this, repr`next, repr`prev
    {
      Linked(ring, repr) && head == if ring == [] then null else ring[0]
    }

    /** Set up: the current and the idle task are in the ring. */
    ghost predicate Valid()
      reads this, repr`next, repr`prev
    {
      RingOk() && cur < |ring| && idl < |ring| && current == ring[cur] && idle == ring[idl]
    }

    ghost function Abs(): (s: Sched)
      requires Valid()
      reads this, repr
      ensures s.cur < |s.ring| && s.idle < |s.ring|
    {
      Sched(TasksOf(ring, repr), cur, idl)
    }

    /** task_list_insert: at the tail, just before the head. */
    method Insert(task: TaskNode)
      requires RingOk() && task !in repr
      modifies this`head, this`ring, this`repr, repr`next, repr`prev, task`next, task`prev
      ensures RingOk() && ring == old(ring) + [task] && repr == old(repr) + {task}
    {
      if head == null {
        head := task;
        task.next := task;
        task.prev := task;
      } else {
        LinkTail(head, task, ring, repr);
      }
      LinkedGrown(ring, repr, task);
      hide Linked;
      ring, repr := ring + [task], repr + {task};
    }

    /** task_list_remove: the neighbours are joined, and the head moves on if it was the one. */
    method Remove(task: TaskNode, ghost k: nat)
      requires RingOk() && k < |ring| && ring[k] == task
      modifies this`head, this`ring, this`repr, repr`next, repr`prev
      ensures RingOk() && ring == Without(old(ring), k) && repr == old(repr) - {task} && task.next == null
      ensures task.prev == null
    {
      ghost var was := ring;
      LinkedNext(ring, repr, k);
      hide Linked, Pred, Rejoined, Without;
      if task.next == task {
        head := null;
      } else {
        if head == task {
          head := task.next;
        }
        Unlink(task, was, repr, k);
      }
      task.next := null;
      task.prev := null;
      ring := Without(ring, k);
      LinkedWithout(was, repr, k);
      repr := repr - {task};
    }

    /** sched_update_blocked_tasks, with what it does to each node. */
    method UpdateBlocked(now: nat)
      requires RingOk()
      modifies repr`state, repr`wake
      ensures RingOk() && TasksOf(ring, repr) == WakeAll(old(TasksOf(ring, repr)), now)
      ensures forall i {:trigger ring[i]} :: 0 <= i < |ring| ==>
        if old(ring[i].state) == Blocked && 0 < old(ring[i].wake) <= now
        then ring[i].state == Ready && ring[i].wake == 0
        else ring[i].state == old(ring[i].state) && ring[i].wake == old(ring[i].wake)
    {
      hide Linked, TasksOf, WakeAll, Within;
      RingWithin();
      ghost var tasks := TasksOf(ring, repr);
      forall j | 0 <= j < |ring|
        ensures tasks[j] == Task(ring[j].id, ring[j].state, ring[j].wake)
      {
        TaskAt(ring, repr, j);
      }
      WakeLoop(now);
      NodesWoken(ring, repr, tasks, now);
    }

    method WakeLoop(now: nat)
      requires RingOk()
      modifies repr`state, repr`wake
      ensures RingOk() && TasksOf(ring, repr) == WakeAll(old(TasksOf(ring, repr)), now)
    {
      if head == null {
        return;
      }
      hide Linked, TasksOf, WakeSome, WakeAll, Within;
      RingWithin();
      var iter: TaskNode := head;
      ghost var i := 0;
      ghost var tasks := TasksOf(ring, repr);
      WakeOneMore(tasks, now, 0);
      while true
        invariant RingOk() && 0 <= i < |ring| && iter == ring[i] && TasksOf(ring, repr) == WakeSome(tasks, now, i)
        decreases |ring| - i
      {
        iter := WakeStep(iter, now, ring, repr, i, tasks);
        i := i + 1;
        if iter == head {
          break;
        }
      }
    }

    /** The scan of sched_schedule, along the links from the task after the current one. */
    method Scan() returns (chosen: TaskNode?, ghost d: nat)
      requires Valid()
      ensures d <= |ring| && (chosen == null <==> d == |ring|)
      ensures d < |ring| ==> chosen == ring[At(cur, d, |ring|)]
      ensures d == if |ring| == 1 then 1 else S.Scan(Abs(), 1)
    {
      hide Linked, TasksOf, Within, S.Scan, Eligible, At, Succ;
      var start: TaskNode := current;
      NextIs(ring, repr, cur);
      AtStep(cur, 0, |ring|);
      ScanStep(Abs(), |ring|);
      var iter: TaskNode := start.next;
      d := 1;
      while true
        invariant 1 <= d <= |ring| && iter == ring[At(cur, d, |ring|)]
        invariant |ring| > 1 ==> d < |ring| && S.Scan(Abs(), 1) == S.Scan(Abs(), d)
        decreases |ring| - d
      {
        EligibleNode(At(cur, d, |ring|));
        ScanStep(Abs(), d);
        if iter != idle && iter.state == Ready {
          chosen := iter;
          return;
        }
        NextIs(ring, repr, At(cur, d, |ring|));
        AtStep(cur, d, |ring|);
        iter := iter.next;
        if iter == start {
          break;
        }
        d := d + 1;
      }
      chosen, d := null, |ring|;
    }

    /** What the scan tests at a node is what the machine tests at its position. */
    lemma EligibleNode(p: nat)
      requires Valid() && p < |ring|
      ensures Eligible(Abs(), p) <==> ring[p] != idle && ring[p].state == Ready
    {
      hide Linked, TasksOf, Within;
      NextIs(ring, repr, p);
      NextIs(ring, repr, idl);
      TaskAt(ring, repr, p);
    }

    /** The task to run next, the current one if it is to stay. */
    method Choose() returns (chosen: TaskNode, ghost p: nat)
      requires Valid()
      ensures p == Choice(Abs()) && chosen == ring[p]
    {
      hide Linked, TasksOf, S.Scan, Within;
      NextIs(ring, repr, cur);
      var found, d := Scan();
      TaskAt(ring, repr, idl);
      TaskAt(ring, repr, cur);
      if found != null {
        return found, At(cur, d, |ring|);
      }
      if idle.state == Ready {
        return idle, idl;
      } else if current.state == Running {
        return current, cur;
      } else {
        return idle, idl;
      }
    }

    /** The hand-over from the current task to another one. */
    method SwitchTo(chosen: TaskNode, ghost p: nat)
      requires Valid() && p < |ring| && chosen == ring[p] && p != cur
      modifies this`current, this`cur, repr`state
      ensures Valid() && ring == old(ring) && idl == old(idl) && cur == p
      ensures TasksOf(ring, repr) == S.SetState(
        if old(TasksOf(ring, repr))[old(cur)].state == Running
          then S.SetState(old(TasksOf(ring, repr)), old(cur), Ready) else old(TasksOf(ring, repr)),
        p, Running)
    {
      hide Linked, TasksOf, Within;
      NextIs(ring, repr, p);
      NextIs(ring, repr, cur);
      TaskAt(ring, repr, cur);
      if current.state == Running {
        SetNodeState(current, Ready, ring, repr, cur);
      }
      SetNodeState(chosen, Running, ring, repr, p);
      current, cur := chosen, p;
    }

    /** sched_schedule up to the context switch: exactly the step of the machine. */
    method Schedule(now: nat)
      requires Valid()
      modifies this`current, this`cur, repr`state, repr`wake
      ensures Valid() && ring == old(ring) && idl == old(idl) && Abs() == S.Schedule(old(Abs()), now)
    {
      hide Linked, TasksOf, WakeAll, Choice, Within;
      NextIs(ring, repr, cur);
      UpdateBlocked(now);
      var chosen, p := Choose();
      if chosen == current {
        return;
      }
      SwitchTo(chosen, p);
    }

    /** sleep_ms up to its yield. */
    method Sleep(now: nat, ms: nat)
      requires Valid()
      modifies repr`state, repr`wake
      ensures Valid()
      ensures Abs() ==
        old(Abs()).(ring := old(Abs()).ring[cur := old(Abs()).ring[cur].(state := Blocked, wake := now + ms)])
    {
      hide Linked, TasksOf, Within;
      NextIs(ring, repr, cur);
      SetNodeWake(current, now + ms, ring, repr, cur);
      SetNodeState(current, Blocked, ring, repr, cur);
    }

    /** task_exit up to its yield. */
    method Exit()
      requires Valid()
      modifies repr`state
      ensures Valid() && Abs() == old(Abs()).(ring := S.SetState(old(Abs()).ring, cur, Dead))
    {
      hide Linked, TasksOf, Within;
      NextIs(ring, repr, cur);
      SetNodeState(current, Dead, ring, repr, cur);
    }

    /** The reaper's scan: the first dead task that is not current. */
    method FindDead() returns (dead: TaskNode?, ghost k: nat)
      requires Valid()
      ensures dead == null ==> forall i :: 0 <= i < |ring| && i != cur ==> ring[i].state != Dead
      ensures dead == null ==> forall i :: 0 <= i < |ring| && i != cur ==> Abs().ring[i].state != Dead
      ensures dead != null ==> k < |ring| && dead == ring[k] && k != cur && dead != current
      ensures dead != null ==> dead.state == Dead && Abs().ring[k].state == Dead
    {
      hide Linked, TasksOf, Within;
      k := 0;
      var iter: TaskNode := head;
      while true
        invariant 0 <= k < |ring| && iter == ring[k]
        invariant forall i :: 0 <= i < k && i != cur ==> ring[i].state != Dead && Abs().ring[i].state != Dead
        decreases |ring| - k
      {
        NextIs(ring, repr, k);
        TaskAt(ring, repr, k);
        if iter.state == Dead && iter != current {
          return iter, k;
        }
        NextIs(ring, repr, cur);
        iter := iter.next;
        k := k + 1;
        if iter == head {
          break;
        }
      }
      dead := null;
    }

    /** task_reaper: ends, with exactly the current task and the living left, in their order. */
    method Reaper()
      requires Valid() && Inv(Abs())
      modifies this`head, this`ring, this`repr, this`cur, this`idl, repr`next, repr`prev
      ensures Valid() && current == old(current) && idle == old(idle) && Abs() == Reap(old(Abs()))
      ensures repr <= old(repr)
      ensures forall n :: n in old(ring) && (n == current || old(n.state) != Dead) ==> n in ring
      ensures forall n :: n in ring ==> n in old(ring) && (n == current || n.state != Dead) && n.state == old(n.state)
    {
      hide Linked, TasksOf, Within, Reap, Inv, Survives, RemoveAt, OnlyDeadGone;
      GoneNone(ring, current);
      while true
        invariant Valid() && Inv(Abs()) && current == old(current) && idle == old(idle)
        invariant Reap(Abs()) == Reap(old(Abs()))
        invariant repr <= old(repr) && OnlyDeadGone(old(ring), ring, current)
        decreases |ring|
      {
        var dead, k := FindDead();
        if dead == null {
          Surviving(Abs());
          ReapNothing(Abs());
          GoneAll(old(ring), ring, cur);
          return;
        }
        NotSurviving(Abs(), k);
        ReapOfRemove(Abs(), k);
        GoneWithout(old(ring), ring, current, k);
        TakeOut(dead, k);
      }
    }

    /** One dead task taken out of the ring; the positions of the current and the idle task follow. */
    method TakeOut(dead: TaskNode, ghost k: nat)
      requires Valid() && k < |ring| && ring[k] == dead && k != cur && k != idl
      modifies this`head, this`ring, this`repr, this`cur, this`idl, repr`next, repr`prev
      ensures Valid() && current == old(current) && idle == old(idle) && Abs() == RemoveAt(old(Abs()), k)
      ensures repr <= old(repr) && ring == Without(old(ring), k)
    {
      hide Linked, TasksOf, Within;
      ghost var nodes := repr;
      NextIs(ring, repr, k);
      TasksWithout(ring, repr, k);
      ShiftWithout(ring, k, cur);
      ShiftWithout(ring, k, idl);
      Remove(dead, k);
      RingWithin();
      TasksSame(ring, nodes, repr);
      cur, idl := Shift(cur, k), Shift(idl, k);
    }

    lemma RingWithin()
      requires RingOk()
      ensures Within(ring, repr)
    {
    }
  }
}

/** The scheduler as a step machine over the task ring (kernel/src/kernel/sched.c, kernel/src/kernel/pit.c).
    The clock reading of each call is an input. */
module SchedSpec {
  datatype TaskState = Ready | Running | Blocked | Dead

  datatype Task = Task(id: nat, state: TaskState, wake: nat)

  /** The ring in list order from its head, and the positions of the current and the idle task. */
  datatype Sched = Sched(ring: seq<Task>, cur: nat, idle: nat)

  /** The position `d` links further along a ring of `n`. */
  function At(cur: nat, d: nat, n: nat): (p: nat)
    requires cur < n && d <= n
    ensures p < n
  {
    if cur + d < n then cur + d else cur + d - n
  }

  /** How many links lie between two positions. */
  function Distance(from: nat, to: nat, n: nat): (d: nat)
    requires from < n && to < n
    ensures d < n && At(from, d, n) == to && (d == 0 <==> from == to)
  {
    if to >= from then to - from else to + n - from
  }

  /** sched_update_blocked_tasks for one task. */
  function WakeUp(t: Task, now: nat): Task {
    if t.state == Blocked && t.wake > 0 && now >= t.wake then Task(t.id, Ready, 0) else t
  }

  function WakeAll(ring: seq<Task>, now: nat): (r: seq<Task>)
    ensures |r| == |ring| && forall i :: 0 <= i < |ring| ==> r[i] == WakeUp(ring[i], now)
  {
    seq(|ring|, i requires 0 <= i < |ring| => WakeUp(ring[i], now))
  }

  predicate Eligible(s: Sched, p: nat)
    requires p < |s.ring|
  {
    p != s.idle && s.ring[p].state == Ready
  }

  /** The scan: the first eligible position from distance `d` on, before the ring closes. */
  function Scan(s: Sched, d: nat): (r: nat)
    requires s.cur < |s.ring| && 1 <= d <= |s.ring|
    ensures d <= r <= |s.ring|
    decreases |s.ring| - d
  {
    if d == |s.ring| || Eligible(s, At(s.cur, d, |s.ring|)) then d else Scan(s, d + 1)
  }

  lemma ScanStep(s: Sched, d: nat)
    requires s.cur < |s.ring| && 1 <= d <= |s.ring|
    ensures Scan(s, d) == if d == |s.ring| || Eligible(s, At(s.cur, d, |s.ring|)) then d else Scan(s, d + 1)
    ensures Scan(s, |s.ring|) == |s.ring|
  {
  }

  /** The task that sched_schedule settles on after waking sleepers; the current one when it stays. */
  function Choice(s: Sched): (p: nat)
    requires s.cur < |s.ring| && s.idle < |s.ring|
    ensures p < |s.ring|
  {
    var n := |s.ring|;
    var d := if n == 1 then (if Eligible(s, s.cur) then 0 else n) else Scan(s, 1);
    if d < n then At(s.cur, d, n)
    else if s.ring[s.idle].state == Ready then s.idle
    else if s.ring[s.cur].state == Running then s.cur
    else s.idle
  }

  function SetState(ring: seq<Task>, p: nat, st: TaskState): (r: seq<Task>)
    requires p < |ring|
    ensures |r| == |ring|
  {
    ring[p := ring[p].(state := st)]
  }

  function Schedule(s: Sched, now: nat): (t: Sched)
    requires s.cur < |s.ring| && s.idle < |s.ring|
    ensures |t.ring| == |s.ring| && t.idle == s.idle && t.cur < |t.ring|
  {
    var woken := s.(ring := WakeAll(s.ring, now));
    var chosen := Choice(woken);
    if chosen == s.cur then woken
    else
      var released := if woken.ring[s.cur].state == Running then SetState(woken.ring, s.cur, Ready) else woken.ring;
      Sched(SetState(released, chosen, Running), chosen, s.idle)
  }

  /** What holds between any two steps: only the current task may be running, and the idle task runs
      when it is current and is ready otherwise. */
  ghost predicate Inv(s: Sched) {
    && s.cur < |s.ring| && s.idle < |s.ring|
    && (forall i :: 0 <= i < |s.ring| && i != s.cur ==> s.ring[i].state != Running)
    && s.ring[s.idle].state == (if s.cur == s.idle then Running else Ready)
    && (forall i, j :: 0 <= i < j < |s.ring| ==> s.ring[i].id != s.ring[j].id)
  }

  lemma {:induction false} ScanFinds(s: Sched, d: nat)
    requires s.cur < |s.ring| && 1 <= d <= |s.ring|
    ensures var r := Scan(s, d);
      && (r < |s.ring| ==> Eligible(s, At(s.cur, r, |s.ring|)))
      && (forall k :: d <= k < r ==> !Eligible(s, At(s.cur, k, |s.ring|)))
    decreases |s.ring| - d
  {
    if !(d == |s.ring| || Eligible(s, At(s.cur, d, |s.ring|))) {
      ScanFinds(s, d + 1);
    }
  }

  /** The choice is a ready task, or the current one; never a dead one; the idle task only when no other
      task but the current one is ready. */
  lemma ChoiceSound(s: Sched)
    requires Inv(s)
    ensures var p := Choice(s);
      && (p != s.cur ==> s.ring[p].state == Ready)
      && (p == s.idle && p != s.cur ==> forall i :: 0 <= i < |s.ring| && i != s.cur ==> !Eligible(s, i))
      && (p == s.cur ==> |s.ring| == 1 || forall i :: 0 <= i < |s.ring| && i != s.cur ==> !Eligible(s, i))
  {
    var n := |s.ring|;
    if n > 1 {
      ScanFinds(s, 1);
      forall i | 0 <= i < n && i != s.cur && Scan(s, 1) == n
        ensures !Eligible(s, i)
      {
        assert !Eligible(s, At(s.cur, Distance(s.cur, i, n), n));
      }
    }
  }

  /** The choice is the nearest eligible task along the ring other than the current one, and idle if there is
      none, even while the current task could run on. */
  lemma ChoiceNearest(s: Sched)
    requires Inv(s)
    ensures var p := Choice(s);
      && (forall i :: 0 <= i < |s.ring| && i != s.cur && Eligible(s, i) ==>
           p != s.cur && Eligible(s, p) && Distance(s.cur, p, |s.ring|) <= Distance(s.cur, i, |s.ring|))
      && ((forall i :: 0 <= i < |s.ring| && i != s.cur ==> !Eligible(s, i)) ==> p == s.idle)
  {
    hide Scan;
    var n := |s.ring|;
    if n > 1 {
      ScanFinds(s, 1);
      var d := Scan(s, 1);
      forall i | 0 <= i < n && i != s.cur && Eligible(s, i)
        ensures d <= Distance(s.cur, i, n)
      {
        assert Eligible(s, At(s.cur, Distance(s.cur, i, n), n));
      }
    }
  }

  lemma WakeKeepsInv(s: Sched, now: nat)
    requires Inv(s)
    ensures Inv(s.(ring := WakeAll(s.ring, now)))
  {
  }

  /** sched_schedule keeps the invariant; after a switch exactly the current task runs; a task that was
      dead stays dead and is not chosen; a sleeper stops sleeping exactly when its time has come. */
  lemma ScheduleSafe(s: Sched, now: nat)
    requires Inv(s)
    ensures var t := Schedule(s, now);
      && Inv(t)
      && (t.cur != s.cur ==> forall i :: 0 <= i < |t.ring| ==> (t.ring[i].state == Running <==> i == t.cur))
      && (forall i :: 0 <= i < |s.ring| && s.ring[i].state == Dead ==>
           t.ring[i].state == Dead && (i == t.cur ==> i == s.cur))
      && (forall i :: 0 <= i < |s.ring| && s.ring[i].state == Blocked ==>
           (t.ring[i].state != Blocked <==> 0 < s.ring[i].wake <= now))
      && (forall i :: 0 <= i < |s.ring| ==> t.ring[i].id == s.ring[i].id)
      && (t.cur != s.cur && s.ring[s.cur].state == Running ==> t.ring[s.cur].state == Ready)
      && (forall i :: 0 <= i < |s.ring| && i != t.cur && i != s.cur && s.ring[i].state != Blocked ==>
           t.ring[i] == s.ring[i])
      && (forall i :: 0 <= i < |s.ring| && i != t.cur && s.ring[i].state == Blocked && 0 < s.ring[i].wake <= now ==>
           t.ring[i].state == Ready && t.ring[i].wake == 0)
  {
    hide Choice, Inv;
    var woken := s.(ring := WakeAll(s.ring, now));
    WakeKeepsInv(s, now);
    ChoiceSound(woken);
    InvPlaces(s);
    WakeFacts(s, now);
    if Choice(woken) != s.cur {
      HandOver(woken, Choice(woken));
    }
  }

  /** What waking does to each task. */
  lemma WakeFacts(s: Sched, now: nat)
    ensures var r := WakeAll(s.ring, now);
      && (forall i :: 0 <= i < |r| ==> r[i].id == s.ring[i].id && (r[i].state == Dead <==> s.ring[i].state == Dead))
      && (forall i :: 0 <= i < |r| && s.ring[i].state == Blocked ==>
           (r[i].state != Blocked <==> 0 < s.ring[i].wake <= now))
      && (forall i :: 0 <= i < |r| && s.ring[i].state != Blocked ==> r[i] == s.ring[i])
      && (forall i :: 0 <= i < |r| && s.ring[i].state == Blocked && 0 < s.ring[i].wake <= now ==>
           r[i].state == Ready && r[i].wake == 0)
  {
  }

  /** The change of the current task from one to a ready other. */
  lemma HandOver(s: Sched, p: nat)
    requires Inv(s) && p < |s.ring| && p != s.cur && s.ring[p].state == Ready
    ensures s.cur < |s.ring|
    ensures
      var released := if s.ring[s.cur].state == Running then SetState(s.ring, s.cur, Ready) else s.ring;
      var t := Sched(SetState(released, p, Running), p, s.idle);
      && Inv(t)
      && (forall i :: 0 <= i < |t.ring| ==>
           (t.ring[i].state == Running <==> i == t.cur) && t.ring[i].id == s.ring[i].id)
      && (forall i :: 0 <= i < |s.ring| ==> (t.ring[i].state == Dead <==> s.ring[i].state == Dead))
      && (forall i :: 0 <= i < |s.ring| ==> (t.ring[i].state == Blocked <==> s.ring[i].state == Blocked))
      && (forall i :: 0 <= i < |s.ring| && i != p && i != s.cur ==> t.ring[i] == s.ring[i])
      && (s.ring[s.cur].state == Running ==> t.ring[s.cur].state == Ready)
      && (s.ring[s.cur].state != Running ==> t.ring[s.cur] == s.ring[s.cur])
  {
  }

  /** Task `id` is in the ring at position `p`, ready, not idle and not current. */
  ghost predicate Waits(s: Sched, p: nat, id: nat) {
    Inv(s) && p < |s.ring| && s.ring[p].id == id && Eligible(s, p) && p != s.cur
  }

  /** What tasks and time may do between two calls of sched_schedule: others run, sleep, wake, exit, or are
      reaped once dead; the current one stays current. Task `id` stays ready. Tasks are followed by
      identity, since reaping shifts positions. */
  ghost predicate Between(s: Sched, t: Sched, id: nat) {
    && Inv(t) && s.cur < |s.ring|
    && SubRing(s.ring, t.ring)
    && t.ring[t.cur].id == s.ring[s.cur].id
    && exists p :: 0 <= p < |t.ring| && t.ring[p].id == id && Eligible(t, p)
  }

  /** The tasks of `few` are tasks of `many`, in the same order. */
  ghost predicate SubRing(many: seq<Task>, few: seq<Task>) {
    exists f: seq<nat> :: Embeds(f, many, few)
  }

  ghost predicate Embeds(f: seq<nat>, many: seq<Task>, few: seq<Task>) {
    && |f| == |few|
    && (forall i :: 0 <= i < |f| ==> f[i] < |many| && many[f[i]].id == few[i].id)
    && (forall i, j :: 0 <= i < j < |f| ==> f[i] < f[j])
  }

  /** Leaving tasks out never puts two of the remaining ones further apart. */
  lemma DistanceShrinks(many: seq<Task>, few: seq<Task>, f: seq<nat>, a: nat, b: nat)
    requires Embeds(f, many, few) && a < |few| && b < |few|
    ensures Distance(a, b, |few|) <= Distance(f[a], f[b], |many|)
  {
    GapGrows(f, a, b);
    GapGrows(f, b, a);
    EndGrows(f, a, |many|);
    EndGrows(f, b, |many|);
  }

  lemma {:induction false} GapGrows(f: seq<nat>, a: nat, b: nat)
    requires forall i, j :: 0 <= i < j < |f| ==> f[i] < f[j]
    requires a < |f| && b < |f|
    ensures a <= b ==> b - a <= f[b] - f[a]
    decreases b
  {
    if a < b {
      GapGrows(f, a, b - 1);
    }
  }

  lemma EndGrows(f: seq<nat>, a: nat, n: nat)
    requires forall i, j :: 0 <= i < j < |f| ==> f[i] < f[j]
    requires a < |f| && forall i :: 0 <= i < |f| ==> f[i] < n
    ensures |f| - a <= n - f[a] && a <= f[a]
  {
    GapGrows(f, a, |f| - 1);
    GapGrows(f, 0, a);
  }

  /** One call brings a waiting task's turn nearer by at least one, or is its turn; idle is not chosen. */
  lemma BypassStep(s: Sched, now: nat, p: nat, id: nat)
    requires Waits(s, p, id)
    ensures var t := Schedule(s, now);
      && t.cur != t.idle && Inv(t) && t.ring[p].id == id
      && (t.cur == p || (Waits(t, p, id) && Distance(t.cur, p, |t.ring|) < Distance(s.cur, p, |s.ring|)))
  {
    var woken := s.(ring := WakeAll(s.ring, now));
    var n := |s.ring|;
    ScheduleSafe(s, now);
    ScanFinds(woken, 1);
    var d := Distance(s.cur, p, n);
    assert Eligible(woken, At(s.cur, d, n));
    assert Scan(woken, 1) <= d;
  }

  /** The waiting task keeps its place in line, or moves up, while others come and go. */
  lemma BetweenWaits(s: Sched, t: Sched, p: nat, id: nat) returns (q: nat)
    requires Waits(s, p, id) && Between(s, t, id)
    ensures Waits(t, q, id) && Distance(t.cur, q, |t.ring|) <= Distance(s.cur, p, |s.ring|)
  {
    q :| 0 <= q < |t.ring| && t.ring[q].id == id && Eligible(t, q);
    var f: seq<nat> :| Embeds(f, s.ring, t.ring);
    assert f[q] == p && f[t.cur] == s.cur;
    DistanceShrinks(s.ring, t.ring, f, t.cur, q);
  }

  /** Calls of sched_schedule at the given times, with `Between` changes in between them. */
  ghost predicate IsCallRun(pre: seq<Sched>, now: seq<nat>, id: nat) {
    && |now| == |pre|
    && (forall i :: 0 <= i < |pre| ==> Inv(pre[i]))
    && (forall i :: 0 <= i < |pre| - 1 ==> Between(Schedule(pre[i], now[i]), pre[i + 1], id))
  }

  /** Bounded bypass: a task that stays ready is made current within as many calls as its distance from
      the current task, and idle is never chosen before that. */
  lemma {:induction false} BoundedBypass(pre: seq<Sched>, now: seq<nat>, p: nat, id: nat) returns (k: nat)
    requires IsCallRun(pre, now, id) && pre != [] && Waits(pre[0], p, id)
    requires Distance(pre[0].cur, p, |pre[0].ring|) <= |pre|
    ensures k < Distance(pre[0].cur, p, |pre[0].ring|) <= |pre[0].ring| - 1 && k < |pre|
    ensures Schedule(pre[k], now[k]).ring[Schedule(pre[k], now[k]).cur].id == id
    ensures forall j :: 0 <= j <= k ==> Schedule(pre[j], now[j]).cur != Schedule(pre[j], now[j]).idle
    decreases |pre|
  {
    hide Schedule, Between, Waits, Distance;
    WaitsDistance(pre[0], p, id);
    var t := Schedule(pre[0], now[0]);
    BypassStep(pre[0], now[0], p, id);
    if t.cur == p {
      k := 0;
    } else {
      assert Between(t, pre[1], id);
      var q := BetweenWaits(t, pre[1], p, id);
      WaitsDistance(pre[1], q, id);
      var rest, times := pre[1..], now[1..];
      forall i | 0 <= i < |rest| - 1
        ensures Between(Schedule(rest[i], times[i]), rest[i + 1], id)
      {
        assert Between(Schedule(pre[i + 1], now[i + 1]), pre[i + 2], id);
      }
      var m := BoundedBypass(rest, times, q, id);
      k := m + 1;
      forall j | 0 <= j <= k
        ensures Schedule(pre[j], now[j]).cur != Schedule(pre[j], now[j]).idle
      {
        assert j > 0 ==> rest[j - 1] == pre[j] && times[j - 1] == now[j];
      }
    }
  }

  /** A waiting task is at least one link away from the current one. */
  lemma WaitsDistance(s: Sched, p: nat, id: nat)
    requires Waits(s, p, id)
    ensures Inv(s) && s.cur < |s.ring| && p < |s.ring| && 0 < Distance(s.cur, p, |s.ring|) < |s.ring|
  {
  }

  /** task_reaper keeps the current task and every task that is not dead. */
  predicate Survives(s: Sched, i: nat)
    requires i < |s.ring|
  {
    i == s.cur || s.ring[i].state != Dead
  }

  /** The positions below `n` that survive, in order. */
  function Survivors(s: Sched, n: nat): (f: seq<nat>)
    requires n <= |s.ring|
    ensures |f| <= n && forall i :: 0 <= i < |f| ==> f[i] < n && Survives(s, f[i])
    ensures forall i, j :: 0 <= i < j < |f| ==> f[i] < f[j]
  {
    if n == 0 then [] else Survivors(s, n - 1) + if Survives(s, n - 1) then [n - 1] else []
  }

  function Pick(ring: seq<Task>, f: seq<nat>): (r: seq<Task>)
    requires forall i :: 0 <= i < |f| ==> f[i] < |ring|
    ensures |r| == |f| && forall i :: 0 <= i < |f| ==> r[i] == ring[f[i]]
  {
    seq(|f|, i requires 0 <= i < |f| => ring[f[i]])
  }

  /** The ring of the survivors. */
  function Reap(s: Sched): Sched
    requires s.cur < |s.ring| && s.idle < |s.ring|
  {
    Sched(Pick(s.ring, Survivors(s, |s.ring|)), |Survivors(s, s.cur)|, |Survivors(s, s.idle)|)
  }

  lemma {:induction false} SurvivorAt(s: Sched, p: nat, n: nat)
    requires p < n <= |s.ring| && Survives(s, p)
    ensures |Survivors(s, p)| < |Survivors(s, n)| && Survivors(s, n)[|Survivors(s, p)|] == p
  {
    if n > p + 1 {
      SurvivorAt(s, p, n - 1);
    }
  }

  lemma InvPlaces(s: Sched)
    requires Inv(s)
    ensures s.cur < |s.ring| && s.idle < |s.ring| && s.ring[s.idle].state != Dead
  {
  }

  /** A part of a ring that keeps the current and the idle task keeps the invariant. */
  lemma PickInv(s: Sched, f: seq<nat>, c: nat, d: nat)
    requires Inv(s) && c < |f| && d < |f| && f[c] == s.cur && f[d] == s.idle
    requires forall i :: 0 <= i < |f| ==> f[i] < |s.ring|
    requires forall i, j :: 0 <= i < j < |f| ==> f[i] < f[j]
    ensures Inv(Sched(Pick(s.ring, f), c, d))
  {
    var r := Pick(s.ring, f);
    forall i, j | 0 <= i < j < |r|
      ensures r[i].id != r[j].id
    {
      assert f[i] < f[j];
    }
  }

  /** Reaping leaves exactly the current task and the living, in their order, and the same tasks current
      and idle: `f` lists the positions that stay. */
  lemma ReapExact(s: Sched) returns (f: seq<nat>)
    requires Inv(s)
    ensures s.cur < |s.ring| && s.idle < |s.ring|
    ensures var t := Reap(s);
      && Inv(t) && Embeds(f, s.ring, t.ring) && (forall i :: 0 <= i < |f| ==> t.ring[i] == s.ring[f[i]])
      && f[t.cur] == s.cur && f[t.idle] == s.idle
    ensures forall p: nat :: p in f <==> p < |s.ring| && (p == s.cur || s.ring[p].state != Dead)
  {
    hide Survivors, Pick, Inv;
    InvPlaces(s);
    f := Survivors(s, |s.ring|);
    SurvivorAt(s, s.cur, |s.ring|);
    SurvivorAt(s, s.idle, |s.ring|);
    PickInv(s, f, |Survivors(s, s.cur)|, |Survivors(s, s.idle)|);
    SurvivorsAre(s);
  }

  lemma SurvivorsAre(s: Sched)
    ensures forall p: nat :: p in Survivors(s, |s.ring|) <==> p < |s.ring| && (p == s.cur || s.ring[p].state != Dead)
  {
    hide Survivors;
    forall p: nat | p < |s.ring| && Survives(s, p)
      ensures p in Survivors(s, |s.ring|)
    {
      SurvivorAt(s, p, |s.ring|);
    }
  }

  /** Every task that is current or not dead is still in the ring. */
  lemma ReapKeepsLiving(s: Sched, p: nat)
    requires Inv(s) && p < |s.ring| && (p == s.cur || s.ring[p].state != Dead)
    ensures s.ring[p] in Reap(s).ring
  {
    hide Inv, Reap;
    var f := ReapExact(s);
    assert p in f;
  }

  /** The positions below `n` of dead tasks other than the current one. */
  ghost function DeadBelow(s: Sched, n: nat): set<nat>
    requires n <= |s.ring|
  {
    set p: nat | p < n && p != s.cur && s.ring[p].state == Dead
  }

  lemma NoneDead(s: Sched)
    ensures DeadBelow(s, 0) == {}
  {
  }

  lemma DeadStep(s: Sched, n: nat)
    requires 0 < n <= |s.ring|
    ensures |DeadBelow(s, n)| == |DeadBelow(s, n - 1)| + if Survives(s, n - 1) then 0 else 1
  {
    assert DeadBelow(s, n) == DeadBelow(s, n - 1) + if Survives(s, n - 1) then {} else {n - 1};
  }

  lemma {:induction false} SurvivorCount(s: Sched, n: nat)
    requires n <= |s.ring|
    ensures |Survivors(s, n)| + |DeadBelow(s, n)| == n
  {
    hide DeadBelow;
    if n > 0 {
      SurvivorCount(s, n - 1);
      DeadStep(s, n);
    } else {
      NoneDead(s);
    }
  }

  /** The ring gets shorter by the number of dead tasks in it, the current one not counted. */
  lemma ReapCount(s: Sched)
    requires Inv(s)
    ensures |Reap(s).ring| ==
      |s.ring| - |set p: nat | p < |s.ring| && p != s.cur && s.ring[p].state == Dead|
  {
    SurvivorCount(s, |s.ring|);
  }

  /** The scheduler and the counter that process numbers come from. */
  datatype Machine = Machine(s: Sched, nextPid: nat)

  datatype Step =
    | Call(now: nat)                 // sched_schedule, by yield or timer
    | Sleep(now: nat, ms: nat)       // sleep_ms up to its yield
    | Exit                           // task_exit up to its yield
    | Create(wake: nat)              // task_create: a ready task at the tail
    | Clean                          // task_reaper

  ghost predicate Steps(m: Machine, step: Step, n: Machine) {
    match step
    case Call(now) => Inv(m.s) && n == m.(s := Schedule(m.s, now))
    case Sleep(now, ms) =>
      && Inv(m.s) && m.s.cur != m.s.idle && m.s.ring[m.s.cur].state == Running
      && n == m.(s := m.s.(ring := m.s.ring[m.s.cur := m.s.ring[m.s.cur].(state := Blocked, wake := now + ms)]))
    case Exit =>
      && Inv(m.s) && m.s.cur != m.s.idle && m.s.ring[m.s.cur].state == Running
      && n == m.(s := m.s.(ring := SetState(m.s.ring, m.s.cur, Dead)))
    case Create(wake) =>
      n == Machine(m.s.(ring := m.s.ring + [Task(m.nextPid, Ready, wake)]), m.nextPid + 1)
    case Clean => Inv(m.s) && n == m.(s := Reap(m.s))
  }

  ghost predicate MachineInv(m: Machine) {
    Inv(m.s) && forall i :: 0 <= i < |m.s.ring| ==> m.s.ring[i].id < m.nextPid
  }

  /** Task `id` is gone for good: dead wherever it still is, and its number is never given out again. */
  ghost predicate Gone(m: Machine, id: nat) {
    id < m.nextPid && forall i :: 0 <= i < |m.s.ring| && m.s.ring[i].id == id ==> m.s.ring[i].state == Dead
  }

  lemma StepSafe(m: Machine, step: Step, n: Machine, id: nat)
    requires MachineInv(m) && Steps(m, step, n)
    ensures MachineInv(n) && (Gone(m, id) ==> Gone(n, id))
    ensures step.Call? && n.s.cur != m.s.cur ==> forall i :: 0 <= i < |n.s.ring| ==>
      (n.s.ring[i].state == Running <==> i == n.s.cur)
  {
    hide Schedule, Reap, Survivors;
    match step
    case Call(now) =>
      ScheduleSafe(m.s, now);
    case Sleep(_, _) =>
    case Exit =>
    case Create(_) =>
    case Clean =>
      var f := ReapExact(m.s);
  }

  ghost predicate IsRun(ms: seq<Machine>, steps: seq<Step>) {
    |ms| == |steps| + 1 && forall i :: 0 <= i < |steps| ==> Steps(ms[i], steps[i], ms[i + 1])
  }

  /** Over every run: the invariant holds throughout, and death is final. */
  lemma {:induction false} RunSafe(ms: seq<Machine>, steps: seq<Step>, i: nat, j: nat, id: nat)
    requires IsRun(ms, steps) && MachineInv(ms[0]) && i <= j < |ms|
    ensures MachineInv(ms[j]) && (Gone(ms[i], id) ==> Gone(ms[j], id))
    decreases j
  {
    if j > 0 {
      RunSafe(ms, steps, if i < j then i else j - 1, j - 1, id);
      StepSafe(ms[j - 1], steps[j - 1], ms[j], id);
    }
  }

  /** A sleeper with no wake time set is passed over by a call, at any time. */
  lemma PassedOver(s: Sched, now: nat, p: nat)
    requires Inv(s) && p < |s.ring| && s.ring[p].state == Blocked && s.ring[p].wake == 0
    ensures Schedule(s, now).ring[p] == s.ring[p]
  {
    hide Choice, Scan;
    WakeKeepsInv(s, now);
    ChoiceSound(s.(ring := WakeAll(s.ring, now)));
  }

  /** Task `id` sleeps with no wake time set. */
  ghost predicate Asleep(m: Machine, id: nat) {
    exists p :: 0 <= p < |m.s.ring| && m.s.ring[p] == Task(id, Blocked, 0)
  }

  lemma AsleepStays(m: Machine, step: Step, n: Machine, id: nat)
    requires Steps(m, step, n) && Asleep(m, id)
    ensures Asleep(n, id)
  {
    hide Schedule, Reap;
    var p :| 0 <= p < |m.s.ring| && m.s.ring[p] == Task(id, Blocked, 0);
    match step
    case Call(now) =>
      PassedOver(m.s, now, p);
    case Sleep(_, _) =>
      assert n.s.ring[p] == m.s.ring[p];
    case Exit =>
      assert n.s.ring[p] == m.s.ring[p];
    case Create(_) =>
      assert n.s.ring[p] == m.s.ring[p];
    case Clean =>
      ReapKeepsLiving(m.s, p);
  }

  /** Over every run: a task that sleeps zero milliseconds at uptime zero is never woken. */
  lemma {:induction false} NeverWoken(ms: seq<Machine>, steps: seq<Step>, i: nat, j: nat)
    requires IsRun(ms, steps) && i < j < |ms| && steps[i] == Sleep(0, 0)
    ensures ms[i].s.cur < |ms[i].s.ring| && Asleep(ms[j], ms[i].s.ring[ms[i].s.cur].id)
    decreases j
  {
    assert Steps(ms[i], steps[i], ms[i + 1]);
    if i < j - 1 {
      NeverWoken(ms, steps, i, j - 1);
      AsleepStays(ms[j - 1], steps[j - 1], ms[j], ms[i].s.ring[ms[i].s.cur].id);
    } else {
      assert ms[j].s.ring[ms[i].s.cur] == Task(ms[i].s.ring[ms[i].s.cur].id, Blocked, 0);
    }
  }

  /** A sequence without its element `k`. */
  function Without<T>(s: seq<T>, k: nat): (r: seq<T>)
    requires k < |s|
    ensures |r| == |s| - 1 && (r != [] ==> r[0] == if k == 0 then s[1] else s[0])
  {
    s[..k] + s[k + 1..]
  }

  /** Where position `p` goes when position `k` is taken out. */
  function Shift(p: nat, k: nat): nat { if p > k then p - 1 else p }

  lemma ShiftWithout<T>(s: seq<T>, k: nat, p: nat)
    requires k < |s| && p < |s| && p != k
    ensures Shift(p, k) < |s| - 1 && Without(s, k)[Shift(p, k)] == s[p]
  {
  }

  function RemoveAt(s: Sched, k: nat): Sched
    requires k < |s.ring|
  {
    Sched(Without(s.ring, k), Shift(s.cur, k), Shift(s.idle, k))
  }

  /** The survivors below `n` themselves. */
  function Kept(s: Sched, n: nat): seq<Task>
    requires n <= |s.ring|
  {
    Pick(s.ring, Survivors(s, n))
  }

  lemma KeptStep(s: Sched, n: nat)
    requires n < |s.ring|
    ensures Kept(s, n + 1) == Kept(s, n) + (if Survives(s, n) then [s.ring[n]] else [])
  {
  }

  /** A task seen with or without another one taken out. */
  lemma SameTask(s: Sched, k: nat, p: nat)
    requires k < |s.ring| && p < |s.ring| && p != k && s.cur != k
    ensures var t := RemoveAt(s, k); var q := Shift(p, k);
      q < |t.ring| == |s.ring| - 1 && t.ring[q] == s.ring[p] && (Survives(t, q) <==> Survives(s, p))
  {
    ShiftWithout(s.ring, k, p);
  }

  /** The survivors below a position are the same tasks with or without a task that does not survive. */
  lemma {:induction false} SurvivorsSkip(s: Sched, k: nat, n: nat)
    requires k < |s.ring| && !Survives(s, k) && n <= |s.ring|
    ensures |RemoveAt(s, k).ring| == |s.ring| - 1 && Shift(n, k) <= |s.ring| - 1
    ensures Kept(RemoveAt(s, k), Shift(n, k)) == Kept(s, n)
  {
    hide Kept, Without;
    if n > 0 {
      SurvivorsSkip(s, k, n - 1);
      KeptStep(s, n - 1);
      if n - 1 != k {
        SameTask(s, k, n - 1);
        KeptStep(RemoveAt(s, k), Shift(n - 1, k));
      }
    } else {
      KeptNone(s);
      KeptNone(RemoveAt(s, k));
    }
  }

  lemma KeptNone(s: Sched)
    ensures Kept(s, 0) == []
  {
  }

  lemma ReapIsKept(s: Sched)
    requires s.cur < |s.ring| && s.idle < |s.ring|
    ensures Reap(s) == Sched(Kept(s, |s.ring|), |Kept(s, s.cur)|, |Kept(s, s.idle)|)
  {
  }

  lemma RemoveInv(s: Sched, k: nat)
    requires Inv(s) && k < |s.ring| && k != s.cur && k != s.idle
    ensures Inv(RemoveAt(s, k))
  {
  }

  /** Taking out one task that does not survive makes no difference to the reaper's result. */
  lemma ReapOfRemove(s: Sched, k: nat)
    requires Inv(s) && k < |s.ring| && !Survives(s, k)
    ensures Inv(RemoveAt(s, k)) && Reap(RemoveAt(s, k)) == Reap(s)
  {
    InvPlaces(s);
    hide Kept, Reap, Inv;
    RemoveInv(s, k);
    ReapIsKept(s);
    ReapIsKept(RemoveAt(s, k));
    SurvivorsSkip(s, k, |s.ring|);
    SurvivorsSkip(s, k, s.cur);
    SurvivorsSkip(s, k, s.idle);
  }

  lemma {:induction false} AllSurvive(s: Sched, n: nat)
    requires n <= |s.ring| && forall i :: 0 <= i < |s.ring| ==> Survives(s, i)
    ensures |Survivors(s, n)| == n && forall i :: 0 <= i < n ==> Survivors(s, n)[i] == i
  {
    if n > 0 {
      AllSurvive(s, n - 1);
    }
  }

  lemma ReapNothing(s: Sched)
    requires Inv(s) && forall i :: 0 <= i < |s.ring| ==> Survives(s, i)
    ensures Reap(s) == s
  {
    hide Survivors;
    AllSurvive(s, |s.ring|);
    AllSurvive(s, s.cur);
    AllSurvive(s, s.idle);
  }
}

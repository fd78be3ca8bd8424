/** The big kernel lock on one CPU, one memory access at a time
    (kernel/src/kernel/lock.h, kernel/src/kernel/sched.c, timer_isr in kernel/src/main.c).
    Every task has a stack of activations; the timer interrupt pushes one whenever interrupts are on. */
module Lock {
  /** How far an activation of sched_schedule has come. */
  datatype Stage =
    | Enter                 // called, interrupts not yet off
    | Acquiring             // interrupts off, inside bkl_acquire
    | Locked                // choosing
    | Chosen(next: nat)     // current_task already is `next`, lock still held
    | Released(next: nat)   // lock given back, stack not yet switched
    | Leaving               // about to return: nothing chosen, or switched back in

  datatype IsrStage = Guard | Calling | Done

  datatype Frame =
    | Code(holds: bool)      // a task's own code, between calls
    | Acquire(sawFree: bool) // spin_acquire: about to test the lock, or about to exchange
    | Sched(stage: Stage)
    | Isr(at: IsrStage)      // timer_isr

  type Stack = seq<Frame>

  /** `exec` is the task whose stack the CPU is on, `cur` the variable current_task; `kernel` are the tasks
      whose names begin with '['. */
  datatype Cpu = Cpu(lock: bool, irq: bool, exec: nat, cur: nat, kernel: set<nat>, tasks: map<nat, Stack>)

  predicate Holds(f: Frame) { f == Code(true) || (f.Sched? && (f.stage.Locked? || f.stage.Chosen?)) }

  /** Activations that only run with interrupts off. */
  predicate Masked(f: Frame) { f.Sched? && !f.stage.Enter? && !f.stage.Leaving? }

  predicate Handed(f: Frame) { f.Sched? && (f.stage.Chosen? || f.stage.Released?) }

  predicate Gave(f: Frame) { f.Sched? && f.stage.Released? }

  function Next(f: Frame): nat
    requires Handed(f)
  {
    f.stage.next
  }

  predicate HoldsLock(k: Stack) { exists i :: 0 <= i < |k| && Holds(k[i]) }

  function Top(k: Stack): Frame
    requires k != []
  {
    k[|k| - 1]
  }

  function Pop(k: Stack): Stack
    requires k != []
  {
    k[..|k| - 1]
  }

  function Replace(k: Stack, f: Frame): Stack
    requires k != []
  {
    k[|k| - 1 := f]
  }

  /** Every spin_acquire was called by a task's own code or by sched_schedule. */
  ghost predicate Backed(k: Stack) {
    forall i :: 0 <= i < |k| && k[i].Acquire? ==> 0 < i && (k[i - 1].Code? || k[i - 1] == Sched(Acquiring))
  }

  /** What a stack looks like while the CPU is on another one. */
  ghost predicate Parked(k: Stack) {
    k != [] && Backed(k) && forall i :: 0 <= i < |k| ==> !Holds(k[i]) && !Masked(k[i])
  }

  /** What the stack the CPU is on looks like. A masked activation is on top, or just below its own
      spin_acquire, with interrupts off; at most one activation holds. */
  ghost predicate Active(k: Stack, irq: bool) {
    && k != []
    && (forall i, j :: 0 <= i < j < |k| ==> !(Holds(k[i]) && Holds(k[j])))
    && (forall i :: 0 <= i < |k| && Masked(k[i]) ==>
         !irq && if k[i].stage.Acquiring? then i == |k| - 2 && Top(k).Acquire? else i == |k| - 1)
    && Backed(k)
    && (Gave(Top(k)) ==> !HoldsLock(k))
  }

  ghost predicate Inv(s: Cpu) {
    && s.exec in s.tasks && s.cur in s.tasks
    && Active(s.tasks[s.exec], s.irq)
    && (s.lock <==> HoldsLock(s.tasks[s.exec]))
    && (forall t :: t in s.tasks && t != s.exec ==> Parked(s.tasks[t]))
    && (Handed(Top(s.tasks[s.exec])) ==> s.cur == Next(Top(s.tasks[s.exec])) != s.exec)
    && (!Handed(Top(s.tasks[s.exec])) ==> s.cur == s.exec)
  }

  datatype Step =
    | Begin                    // code calls bkl_acquire
    | Test                     // spin_acquire reads the lock
    | Exchange                 // lock xchgl
    | Release                  // code calls bkl_release
    | Yield                    // code calls sched_schedule, by whatever route
    | Mask                     // cli, then bkl_acquire
    | Keep                     // nothing else to run: bkl_release
    | Choose(next: nat)        // the task states and current_task are set
    | HandOver                 // bkl_release before the switch
    | Switch(irqAfter: bool)   // context_switch; the flags come from the other stack
    | Return(irqAfter: bool)   // sched_schedule or timer_isr returns
    | Timer                    // the timer interrupt is taken
    | IsrTest                  // timer_isr tests the lock and the current task's name
    | IsrCall                  // timer_isr calls sched_schedule
    | Create(id: nat)          // a new task, parked on a fresh stack

  function On(s: Cpu, k: Stack): Cpu
  {
    s.(tasks := s.tasks[s.exec := k])
  }

  ghost predicate Steps(s: Cpu, step: Step, t: Cpu) {
    s.exec in s.tasks && s.tasks[s.exec] != [] && StackStep(s, step, t)
  }

  ghost predicate StackStep(s: Cpu, step: Step, t: Cpu)
    requires s.exec in s.tasks && s.tasks[s.exec] != []
  {
    var k := s.tasks[s.exec];
    var top := Top(k);
    match step
    case Begin => top.Code? && t == On(s, k + [Acquire(false)])
    case Test => top == Acquire(false) && t == On(s, Replace(k, Acquire(!s.lock)))
    case Exchange =>
      && top == Acquire(true) && |k| > 1
      && t == (if s.lock then On(s, Replace(k, Acquire(false)))
               else On(s, Replace(Pop(k), if k[|k| - 2].Code? then Code(true) else Sched(Locked))).(lock := true))
    case Release => top == Code(true) && t == On(s, Replace(k, Code(false))).(lock := false)
    case Yield => top.Code? && t == On(s, k + [Sched(Enter)])
    case Mask => top == Sched(Enter) && t == On(s, Replace(k, Sched(Acquiring)) + [Acquire(false)]).(irq := false)
    case Keep => top == Sched(Locked) && t == On(s, Replace(k, Sched(Leaving))).(lock := false)
    case Choose(next) =>
      && top == Sched(Locked) && next in s.tasks && next != s.exec
      && t == On(s, Replace(k, Sched(Chosen(next)))).(cur := next)
    case HandOver =>
      Handed(top) && top.stage.Chosen? && t == On(s, Replace(k, Sched(Released(Next(top))))).(lock := false)
    case Switch(irqAfter) =>
      Gave(top) && t == On(s, Replace(k, Sched(Leaving))).(exec := Next(top), irq := irqAfter)
    case Return(irqAfter) =>
      (top == Sched(Leaving) || top == Isr(Done)) && |k| > 1 && t == On(s, Pop(k)).(irq := irqAfter)
    case Timer => s.irq && t == On(s, k + [Isr(Guard)]).(irq := false)
    case IsrTest =>
      && top == Isr(Guard)
      && t == On(s, Replace(k, Isr(if !s.lock && s.cur !in s.kernel then Calling else Done)))
    case IsrCall => top == Isr(Calling) && t == On(s, Replace(k, Isr(Done)) + [Sched(Enter)])
    case Create(id) => id !in s.tasks && t == s.(tasks := s.tasks[id := [Code(false)]])
  }

  lemma PopActive(k: Stack, irq: bool, irqAfter: bool)
    requires Active(k, irq) && |k| > 1 && !Masked(Top(k)) && !Top(k).Acquire? && !Holds(Top(k))
    ensures Active(Pop(k), irqAfter) && (HoldsLock(Pop(k)) <==> HoldsLock(k)) && !Handed(Top(Pop(k)))
  {
    var p := Pop(k);
    if HoldsLock(k) {
      var i :| 0 <= i < |k| && Holds(k[i]);
      assert p[i] == k[i];
    }
  }

  /** Calling something: nothing masked is on top, nor does the callee hold anything yet. */
  lemma PushActive(k: Stack, irq: bool, irqAfter: bool, f: Frame)
    requires Active(k, irq) && !Masked(f) && !Holds(f) && (f.Acquire? ==> Top(k).Code?)
    requires irq || !(Masked(Top(k)) || Top(k).Acquire?)
    ensures Active(k + [f], irqAfter) && (HoldsLock(k + [f]) <==> HoldsLock(k))
  {
    var p := k + [f];
    if HoldsLock(k) {
      var i :| 0 <= i < |k| && Holds(k[i]);
      assert p[i] == k[i];
    }
  }

  /** Moving on inside the activation on top. */
  lemma ReplaceActive(k: Stack, irq: bool, f: Frame)
    requires Active(k, irq) && !Top(k).Acquire? && !f.Acquire? && f != Sched(Acquiring)
    requires (Masked(f) ==> !irq) && (Gave(f) ==> Holds(Top(k)))
    requires Holds(f) ==> Holds(Top(k)) || !HoldsLock(k)
    ensures Active(Replace(k, f), irq)
    ensures Holds(f) ==> HoldsLock(Replace(k, f))
    ensures !Holds(f) && Holds(Top(k)) ==> !HoldsLock(Replace(k, f))
    ensures !Holds(f) && !Holds(Top(k)) ==> (HoldsLock(Replace(k, f)) <==> HoldsLock(k))
  {
    var p := Replace(k, f);
    assert p[|p| - 1] == f;
    if HoldsLock(k) {
      var i :| 0 <= i < |k| && Holds(k[i]);
      assert p[i] == if i == |k| - 1 then f else k[i];
    }
  }

  lemma SpinActive(k: Stack, irq: bool, sawFree: bool)
    requires Active(k, irq) && Top(k).Acquire?
    ensures Active(Replace(k, Acquire(sawFree)), irq) && (HoldsLock(Replace(k, Acquire(sawFree))) <==> HoldsLock(k))
  {
    var p := Replace(k, Acquire(sawFree));
    if HoldsLock(k) {
      var i :| 0 <= i < |k| && Holds(k[i]);
      assert p[i] == k[i];
    }
  }

  lemma MaskActive(k: Stack, irq: bool)
    requires Active(k, irq) && Top(k) == Sched(Enter)
    ensures var p := Replace(k, Sched(Acquiring)) + [Acquire(false)];
      Active(p, false) && (HoldsLock(p) <==> HoldsLock(k))
  {
    var p := Replace(k, Sched(Acquiring)) + [Acquire(false)];
    if HoldsLock(k) {
      var i :| 0 <= i < |k| && Holds(k[i]);
      assert p[i] == k[i];
    }
  }

  /** The exchange that finds the lock free: the caller of spin_acquire now holds it. */
  lemma TakeActive(k: Stack, irq: bool)
    requires Active(k, irq) && Top(k).Acquire? && !HoldsLock(k)
    ensures |k| > 1
    ensures var p := Replace(Pop(k), if k[|k| - 2].Code? then Code(true) else Sched(Locked));
      Active(p, irq) && HoldsLock(p) && !Handed(Top(p))
  {
    var p := Replace(Pop(k), if k[|k| - 2].Code? then Code(true) else Sched(Locked));
    assert Holds(p[|p| - 1]);
    forall i | 0 <= i < |p| - 1
      ensures p[i] == k[i] && !Holds(p[i])
    {
    }
  }

  /** A stack is parked once its activation of sched_schedule has nothing left to do but return. */
  lemma ParkActive(k: Stack, irq: bool)
    requires Active(k, irq) && Masked(Top(k)) && !Holds(Top(k)) && !HoldsLock(k)
    ensures Parked(Replace(k, Sched(Leaving)))
  {
    var p := Replace(k, Sched(Leaving));
    forall i | 0 <= i < |p|
      ensures !Holds(p[i]) && !Masked(p[i])
    {
      assert i < |p| - 1 ==> p[i] == k[i];
    }
  }

  lemma UnparkActive(k: Stack, irq: bool)
    requires Parked(k)
    ensures Active(k, irq) && !HoldsLock(k) && !Handed(Top(k))
  {
  }

  /** The invariant after a step that only changes the stack the CPU is on. */
  lemma OnInv(s: Cpu, k: Stack, lock: bool, irq: bool, cur: nat)
    requires Inv(s) && Active(k, irq) && (lock <==> HoldsLock(k)) && cur in s.tasks
    requires if Handed(Top(k)) then cur == Next(Top(k)) != s.exec else cur == s.exec
    ensures Inv(On(s, k).(lock := lock, irq := irq, cur := cur))
  {
    hide Active, HoldsLock, Parked;
  }

  lemma ExecFacts(s: Cpu)
    requires Inv(s)
    ensures s.exec in s.tasks && s.cur in s.tasks
    ensures Active(s.tasks[s.exec], s.irq) && s.tasks[s.exec] != []
    ensures s.lock <==> HoldsLock(s.tasks[s.exec])
    ensures if Handed(Top(s.tasks[s.exec])) then s.cur == Next(Top(s.tasks[s.exec])) != s.exec else s.cur == s.exec
  {
  }

  lemma HoldsOnTop(k: Stack)
    requires k != [] && Holds(Top(k))
    ensures HoldsLock(k)
  {
  }

  lemma MaskedMeansOff(k: Stack, irq: bool)
    requires Active(k, irq)
    ensures Masked(Top(k)) ==> !irq
    ensures Top(k) != Sched(Acquiring)
  {
  }

  lemma LockStep(s: Cpu, step: Step, t: Cpu)
    requires Inv(s) && (step.Test? || step.Exchange? || step.Release?) && Steps(s, step, t)
    ensures Inv(t)
  {
    ExecFacts(s);
    var k := s.tasks[s.exec];
    hide Inv, Active, HoldsLock;
    match step
    case Test =>
      SpinActive(k, s.irq, !s.lock);
      OnInv(s, Replace(k, Acquire(!s.lock)), s.lock, s.irq, s.cur);
    case Exchange =>
      if s.lock {
        SpinActive(k, s.irq, false);
        OnInv(s, Replace(k, Acquire(false)), s.lock, s.irq, s.cur);
      } else {
        TakeActive(k, s.irq);
        OnInv(s, Replace(Pop(k), if k[|k| - 2].Code? then Code(true) else Sched(Locked)), true, s.irq, s.cur);
      }
    case Release =>
      HoldsOnTop(k);
      ReplaceActive(k, s.irq, Code(false));
      OnInv(s, Replace(k, Code(false)), false, s.irq, s.cur);
  }

  lemma CallStep(s: Cpu, step: Step, t: Cpu)
    requires Inv(s) && (step.Begin? || step.Yield? || step.Mask? || step.Timer? || step.IsrCall?) && Steps(s, step, t)
    ensures Inv(t)
  {
    ExecFacts(s);
    var k := s.tasks[s.exec];
    hide Inv, Active, HoldsLock;
    MaskedMeansOff(k, s.irq);
    match step
    case Begin =>
      PushActive(k, s.irq, s.irq, Acquire(false));
      OnInv(s, k + [Acquire(false)], s.lock, s.irq, s.cur);
    case Yield =>
      PushActive(k, s.irq, s.irq, Sched(Enter));
      OnInv(s, k + [Sched(Enter)], s.lock, s.irq, s.cur);
    case Mask =>
      MaskActive(k, s.irq);
      OnInv(s, Replace(k, Sched(Acquiring)) + [Acquire(false)], s.lock, false, s.cur);
    case Timer =>
      PushActive(k, s.irq, false, Isr(Guard));
      OnInv(s, k + [Isr(Guard)], s.lock, false, s.cur);
    case IsrCall =>
      ReplaceActive(k, s.irq, Isr(Done));
      PushActive(Replace(k, Isr(Done)), s.irq, s.irq, Sched(Enter));
      OnInv(s, Replace(k, Isr(Done)) + [Sched(Enter)], s.lock, s.irq, s.cur);
  }

  lemma ChooseStep(s: Cpu, step: Step, t: Cpu)
    requires Inv(s) && (step.Keep? || step.Choose? || step.HandOver?) && Steps(s, step, t)
    ensures Inv(t)
  {
    ExecFacts(s);
    var k := s.tasks[s.exec];
    hide Inv, Active, HoldsLock;
    MaskedMeansOff(k, s.irq);
    HoldsOnTop(k);
    match step
    case Keep =>
      ReplaceActive(k, s.irq, Sched(Leaving));
      OnInv(s, Replace(k, Sched(Leaving)), false, s.irq, s.cur);
    case Choose(next) =>
      ReplaceActive(k, s.irq, Sched(Chosen(next)));
      OnInv(s, Replace(k, Sched(Chosen(next))), s.lock, s.irq, next);
    case HandOver =>
      ReplaceActive(k, s.irq, Sched(Released(Next(Top(k)))));
      OnInv(s, Replace(k, Sched(Released(Next(Top(k))))), false, s.irq, s.cur);
  }

  lemma LeaveStep(s: Cpu, step: Step, t: Cpu)
    requires Inv(s) && (step.Return? || step.IsrTest?) && Steps(s, step, t)
    ensures Inv(t)
  {
    ExecFacts(s);
    var k := s.tasks[s.exec];
    hide Inv, Active, HoldsLock;
    match step
    case Return(irqAfter) =>
      PopActive(k, s.irq, irqAfter);
      OnInv(s, Pop(k), s.lock, irqAfter, s.cur);
    case IsrTest =>
      var f := Isr(if !s.lock && s.cur !in s.kernel then Calling else Done);
      ReplaceActive(k, s.irq, f);
      OnInv(s, Replace(k, f), s.lock, s.irq, s.cur);
  }

  /** A released activation on top means nothing on the stack holds the lock. */
  lemma ReleasedFree(s: Cpu)
    requires Inv(s) && Gave(Top(s.tasks[s.exec]))
    ensures !s.lock
  {
  }

  lemma SwitchStep(s: Cpu, step: Step, t: Cpu)
    requires Inv(s) && step.Switch? && Steps(s, step, t)
    ensures Inv(t)
  {
    ExecFacts(s);
    ReleasedFree(s);
    var k := s.tasks[s.exec];
    ParkActive(k, s.irq);
    UnparkActive(s.tasks[s.cur], step.irqAfter);
    hide Active, HoldsLock, Parked;
  }

  /** Every step keeps the invariant. */
  lemma StepKeeps(s: Cpu, step: Step, t: Cpu)
    requires Inv(s) && Steps(s, step, t)
    ensures Inv(t)
  {
    if step.Test? || step.Exchange? || step.Release? {
      LockStep(s, step, t);
    } else if step.Begin? || step.Yield? || step.Mask? || step.Timer? || step.IsrCall? {
      CallStep(s, step, t);
    } else if step.Keep? || step.Choose? || step.HandOver? {
      ChooseStep(s, step, t);
    } else if step.Return? || step.IsrTest? {
      LeaveStep(s, step, t);
    } else if step.Switch? {
      SwitchStep(s, step, t);
    } else {
      hide Active, HoldsLock;
    }
  }

  /** The moment bkl_ready is set: nobody is inside the lock or the scheduler. */
  ghost predicate Starts(s: Cpu) {
    && !s.lock && s.exec in s.tasks && s.cur == s.exec
    && forall t :: t in s.tasks ==> s.tasks[t] == [Code(false)]
  }

  lemma StartsInv(s: Cpu)
    requires Starts(s)
    ensures Inv(s)
  {
  }

  /** Steps one after another. */
  ghost predicate Leads(ss: seq<Cpu>, steps: seq<Step>) {
    |ss| == |steps| + 1 && forall i :: 0 <= i < |steps| ==> Steps(ss[i], steps[i], ss[i + 1])
  }

  ghost predicate IsRun(ss: seq<Cpu>, steps: seq<Step>) {
    Leads(ss, steps) && Starts(ss[0])
  }

  lemma {:induction false} RunKeeps(ss: seq<Cpu>, steps: seq<Step>, n: nat)
    requires IsRun(ss, steps) && n < |ss|
    ensures Inv(ss[n])
  {
    if n == 0 {
      StartsInv(ss[0]);
    } else {
      RunKeeps(ss, steps, n - 1);
      StepKeeps(ss[n - 1], steps[n - 1], ss[n]);
    }
  }

  /** Over every run: the lock is held exactly when one activation holds it, and that one belongs to the
      task the CPU is on; this task is current_task except between its choice and the switch. */
  lemma HolderRuns(ss: seq<Cpu>, steps: seq<Step>, n: nat)
    requires IsRun(ss, steps) && n < |ss|
    ensures var s := ss[n];
      && s.exec in s.tasks && s.tasks[s.exec] != []
      && (s.lock <==> HoldsLock(s.tasks[s.exec]))
      && (forall i, j :: 0 <= i < j < |s.tasks[s.exec]| ==> !(Holds(s.tasks[s.exec][i]) && Holds(s.tasks[s.exec][j])))
      && (forall t :: t in s.tasks && t != s.exec ==> !HoldsLock(s.tasks[t]))
      && (s.cur != s.exec ==> Handed(Top(s.tasks[s.exec])) && !s.irq)
  {
    RunKeeps(ss, steps, n);
    ExecFacts(ss[n]);
    MaskedMeansOff(ss[n].tasks[ss[n].exec], ss[n].irq);
  }

  /** Over every run: the lock is free across each context switch, and free when timer_isr calls
      sched_schedule, which it does only from the current task's own stack. */
  lemma FreeAtSwitch(ss: seq<Cpu>, steps: seq<Step>, n: nat)
    requires IsRun(ss, steps) && n < |steps| && (steps[n].Switch? || (steps[n].IsrTest? && Calls(ss[n + 1])))
    ensures !ss[n].lock && !ss[n + 1].lock
    ensures steps[n].Switch? ==> ss[n].cur == ss[n + 1].exec == ss[n + 1].cur != ss[n].exec
    ensures steps[n].IsrTest? ==> ss[n].cur == ss[n].exec && ss[n].cur !in ss[n].kernel
  {
    RunKeeps(ss, steps, n);
    ExecFacts(ss[n]);
    assert Steps(ss[n], steps[n], ss[n + 1]);
    if steps[n].Switch? {
      ReleasedFree(ss[n]);
    }
  }

  /** Over every run: timer_isr goes on to call the scheduler if and only if it finds the lock free and the
      current task is not one of the kernel's own; the task it interrupted is then the current one. */
  lemma TimerCalls(ss: seq<Cpu>, steps: seq<Step>, n: nat)
    requires IsRun(ss, steps) && n < |steps| && steps[n].IsrTest?
    ensures Calls(ss[n + 1]) <==> !ss[n].lock && ss[n].cur !in ss[n].kernel
    ensures ss[n].cur == ss[n].exec == ss[n + 1].exec && ss[n + 1].lock == ss[n].lock
  {
    RunKeeps(ss, steps, n);
    ExecFacts(ss[n]);
    assert Steps(ss[n], steps[n], ss[n + 1]);
  }

  /** From every state with interrupts on, the lock free and no kernel task current, three steps of the timer lead
      into sched_schedule on the interrupted stack, with the lock still free. */
  lemma Preempts(s: Cpu) returns (ss: seq<Cpu>)
    requires Inv(s) && s.irq && !s.lock && s.cur !in s.kernel
    ensures Leads(ss, [Timer, IsrTest, IsrCall]) && ss[0] == s
    ensures s.exec in s.tasks && ss[3] == On(s, s.tasks[s.exec] + [Isr(Done), Sched(Enter)]).(irq := false)
  {
    hide Active, HoldsLock, Parked;
    ExecFacts(s);
    var k := s.tasks[s.exec];
    var a := On(s, k + [Isr(Guard)]).(irq := false);
    var b := On(a, k + [Isr(Calling)]);
    var t := On(b, k + [Isr(Done)] + [Sched(Enter)]);
    ss := [s, a, b, t];
    assert Replace(k + [Isr(Guard)], Isr(Calling)) == k + [Isr(Calling)];
    assert Replace(k + [Isr(Calling)], Isr(Done)) == k + [Isr(Done)];
    assert k + [Isr(Done)] + [Sched(Enter)] == k + [Isr(Done), Sched(Enter)];
  }

  /** A call of sched_schedule that finds the lock free takes it, without spinning, in three steps. */
  lemma Enters(s: Cpu) returns (ss: seq<Cpu>)
    requires Inv(s) && !s.lock && Top(s.tasks[s.exec]) == Sched(Enter)
    ensures Leads(ss, [Mask, Test, Exchange]) && ss[0] == s
    ensures ss[3] == On(s, Replace(s.tasks[s.exec], Sched(Locked))).(lock := true, irq := false)
  {
    hide Active, HoldsLock, Parked;
    ExecFacts(s);
    var k := s.tasks[s.exec];
    var m := Replace(k, Sched(Acquiring));
    var a := On(s, m + [Acquire(false)]).(irq := false);
    var b := On(a, m + [Acquire(true)]);
    var c := On(b, Replace(m, Sched(Locked))).(lock := true);
    assert Replace(m + [Acquire(false)], Acquire(true)) == m + [Acquire(true)];
    assert Pop(m + [Acquire(true)]) == m && Replace(m, Sched(Locked)) == Replace(k, Sched(Locked));
    ss := [s, a, b, c];
  }

  /** From there it can hand over to any other task, whose stack the CPU is then on, with the lock free again. */
  lemma Switches(s: Cpu, next: nat, irqAfter: bool) returns (ss: seq<Cpu>)
    requires s.exec in s.tasks && s.tasks[s.exec] != [] && Top(s.tasks[s.exec]) == Sched(Locked)
    requires next in s.tasks && next != s.exec
    ensures Leads(ss, [Choose(next), HandOver, Switch(irqAfter)]) && ss[0] == s
    ensures var t := ss[3];
      && t.exec == t.cur == next && !t.lock && t.irq == irqAfter
      && t.tasks == s.tasks[s.exec := Replace(s.tasks[s.exec], Sched(Leaving))]
  {
    var k := s.tasks[s.exec];
    var a := On(s, Replace(k, Sched(Chosen(next)))).(cur := next);
    var b := On(a, Replace(k, Sched(Released(next)))).(lock := false);
    var c := On(b, Replace(k, Sched(Leaving))).(exec := next, irq := irqAfter);
    assert c.tasks == s.tasks[s.exec := Replace(k, Sched(Leaving))];
    assert Replace(Replace(k, Sched(Chosen(next))), Sched(Released(next))) == Replace(k, Sched(Released(next)));
    assert Replace(Replace(k, Sched(Released(next))), Sched(Leaving)) == Replace(k, Sched(Leaving));
    ss := [s, a, b, c];
  }

  /** Or keep the task it came from: the lock is free again and the task goes on where it was. */
  lemma KeepsOn(s: Cpu, irqAfter: bool) returns (ss: seq<Cpu>)
    requires s.exec in s.tasks && |s.tasks[s.exec]| > 1 && Top(s.tasks[s.exec]) == Sched(Locked)
    ensures Leads(ss, [Keep, Return(irqAfter)]) && ss[0] == s
    ensures ss[2] == On(s, Pop(s.tasks[s.exec])).(lock := false, irq := irqAfter)
  {
    var k := s.tasks[s.exec];
    var a := On(s, Replace(k, Sched(Leaving))).(lock := false);
    var b := On(a, Pop(Replace(k, Sched(Leaving)))).(irq := irqAfter);
    assert Pop(Replace(k, Sched(Leaving))) == Pop(k);
    ss := [s, a, b];
  }

  ghost predicate Calls(s: Cpu) {
    s.exec in s.tasks && s.tasks[s.exec] != [] && Top(s.tasks[s.exec]) == Isr(Calling)
  }

  /** Over every run: an acquisition by a task that does not hold the lock finds it free at each of its two
      accesses, wherever the timer strikes in between, so that it never spins. */
  lemma NeverSpins(ss: seq<Cpu>, steps: seq<Step>, n: nat)
    requires IsRun(ss, steps) && n < |steps| && (steps[n].Test? || steps[n].Exchange?)
    requires ss[n].exec in ss[n].tasks && !HoldsLock(ss[n].tasks[ss[n].exec])
    ensures var k, l := ss[n].tasks[ss[n].exec], ss[n + 1];
      && !ss[n].lock && k != [] && l.exec == ss[n].exec && l.exec in l.tasks
      && (steps[n].Test? ==> l.tasks[l.exec] == Replace(k, Acquire(true)))
      && (steps[n].Exchange? ==> l.lock && |l.tasks[l.exec]| == |k| - 1 && HoldsLock(l.tasks[l.exec]))
  {
    RunKeeps(ss, steps, n);
    RunKeeps(ss, steps, n + 1);
    ExecFacts(ss[n]);
    ExecFacts(ss[n + 1]);
  }

  /** Task `e` runs, the lock is held, and activation `n` of its stack is asking for it; nothing but timer
      interrupts that will not call the scheduler has come on top. */
  ghost predicate Stuck(s: Cpu, e: nat, n: nat) {
    && s.lock && s.exec == e && e in s.tasks && 0 < n <= |s.tasks[e]| && s.tasks[e][n - 1].Acquire?
    && forall i :: n <= i < |s.tasks[e]| ==> s.tasks[e][i] == Isr(Guard) || s.tasks[e][i] == Isr(Done)
  }

  lemma StuckStays(s: Cpu, step: Step, t: Cpu, n: nat)
    requires Stuck(s, s.exec, n) && Steps(s, step, t)
    ensures Stuck(t, s.exec, n)
  {
    var k := s.tasks[s.exec];
    assert |k| > n ==> Top(k) == k[|k| - 1];
    match step
    case Test =>
    case Exchange =>
    case Timer =>
    case IsrTest =>
    case Return(_) =>
    case Create(_) =>
    case _ =>
  }

  /** A task that holds the lock and asks for it again: by itself, or by calling the scheduler. */
  ghost predicate AsksAgain(s: Cpu, step: Step) {
    && s.lock && s.exec in s.tasks && s.tasks[s.exec] != []
    && ((step.Begin? && Top(s.tasks[s.exec]) == Code(true)) || step.Mask?)
  }

  /** Over every run: a holder that asks for the lock again never gets it, and no other task runs again. */
  lemma {:induction false} ReentryStuck(ss: seq<Cpu>, steps: seq<Step>, i: nat, j: nat)
    requires IsRun(ss, steps) && i < j < |ss| && AsksAgain(ss[i], steps[i])
    ensures Stuck(ss[j], ss[i].exec, |ss[i].tasks[ss[i].exec]| + 1)
    decreases j
  {
    assert Steps(ss[j - 1], steps[j - 1], ss[j]);
    if i < j - 1 {
      ReentryStuck(ss, steps, i, j - 1);
      StuckStays(ss[j - 1], steps[j - 1], ss[j], |ss[i].tasks[ss[i].exec]| + 1);
    }
  }

  /** A run that gets there: one task takes the lock and asks for it again. */
  lemma ReentryReached() returns (ss: seq<Cpu>, steps: seq<Step>)
    ensures IsRun(ss, steps) && |steps| == 4 && AsksAgain(ss[3], steps[3]) && Stuck(ss[4], 0, 2)
  {
    var s0 := Cpu(false, false, 0, 0, {}, map[0 := [Code(false)]]);
    var s1 := On(s0, s0.tasks[0] + [Acquire(false)]);
    var s2 := On(s1, Replace(s1.tasks[0], Acquire(true)));
    assert s2.tasks[0] == [Code(false), Acquire(true)];
    var s3 := On(s2, Replace(Pop(s2.tasks[0]), Code(true))).(lock := true);
    assert s3.tasks[0] == [Code(true)];
    var s4 := On(s3, s3.tasks[0] + [Acquire(false)]);
    steps, ss := [Begin, Test, Exchange, Begin], [s0, s1, s2, s3, s4];
  }
}

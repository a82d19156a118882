/** The thread table and the two switch paths (sched.c), each operation as one atomic step. */
module Scheduler {
  import opened Options
  import opened Words

  const MAX_THREADS: nat := 16
  const STACK_PAGES: nat := 128
  const CONTEXT_SIZE: nat := 160
  const BOOT_STACK_TOP: nat := 0x0009_F000

  datatype State = Ready | Running | Blocked | Terminated

  datatype Thread = Thread(rsp: nat, id: nat, state: State, stackLimit: nat, stackPages: nat, cr3: nat,
                           kernelStackTop: nat)

  /** The table, how many slots were ever used, the current slot, and what the processor was last given:
      the page tables and the stack for entries into the kernel. */
  datatype Table = Table(threads: seq<Thread>, n: nat, current: nat, kernelCr3: nat, cr3: nat, rsp0: nat)

  datatype Op =
    | Timer(rsp: nat)
    | Irq(rsp: nat)
    | CreateThread(freshStack: nat)
    | CreateProcess(pml4: nat, stack: nat)
    | Exit
    | Block
    | UnblockAll

  ghost predicate Shaped(s: Table) {
    |s.threads| == MAX_THREADS && 1 <= s.n <= MAX_THREADS && s.current < s.n
  }

  function SetState(ts: seq<Thread>, i: nat, state: State): seq<Thread>
    requires i < |ts|
  {
    ts[i := ts[i].(state := state)]
  }

  /** Store the interrupted context of the current thread; a running thread becomes ready. */
  function SaveCurrent(s: Table, rsp: nat): Table
    requires Shaped(s)
  {
    var t := s.threads[s.current];
    s.(threads := s.threads[s.current := t.(rsp := rsp, state := if t.state.Running? then Ready else t.state)])
  }

  function SwitchTo(s: Table, next: nat): Table
    requires Shaped(s) && next < s.n
  {
    var t := s.threads[next];
    s.(threads := SetState(s.threads, next, Running), current := next, cr3 := t.cr3, rsp0 := t.kernelStackTop)
  }

  // ---------- round robin ----------

  /** The slot `d` places after `cur`, around the table. */
  function At(n: nat, cur: nat, d: nat): nat
    requires cur < n && d <= n
  {
    if cur + d < n then cur + d else cur + d - n
  }

  /** How many places after `cur` the slot `t` comes up: from 1 to `n`. */
  function Distance(n: nat, cur: nat, t: nat): (d: nat)
    requires cur < n && t < n
    ensures 1 <= d <= n && At(n, cur, d) == t
  {
    if t > cur then t - cur else t + n - cur
  }

  /** The first ready slot at distance `d` or more. */
  function NextReady(ts: seq<Thread>, n: nat, cur: nat, d: nat): (r: Option<nat>)
    requires cur < n <= |ts| && 1 <= d <= n + 1
    ensures r.Some? ==> r.value < n && ts[r.value].state.Ready?
    decreases n + 1 - d
  {
    if d == n + 1 then None
    else if ts[At(n, cur, d)].state.Ready? then Some(At(n, cur, d))
    else NextReady(ts, n, cur, d + 1)
  }

  /** `schedule_interrupt`, the path of timer ticks and voluntary yields. The result 0 means "go on". */
  function TimerStep(s: Table, rsp: nat): (r: (Table, nat))
    requires Shaped(s)
  {
    if s.n <= 1 then (s, 0)
    else
      var s1 := SaveCurrent(s, rsp);
      match NextReady(s1.threads, s1.n, s1.current, 1)
      case None => (s1.(threads := SetState(s1.threads, s1.current, Running)), 0)
      case Some(next) => (SwitchTo(s1, next), s1.threads[next].rsp)
  }

  // ---------- interrupt priority ----------

  function Priority(i: nat): nat {
    if i == 1 then 2 else if i == 0 then 0 else 1
  }

  /** The scan of `schedule_irq` over the slots `i ..`, starting from the best so far. */
  function Best(ts: seq<Thread>, n: nat, i: nat, bestIdx: nat, bestPriority: nat): (r: nat)
    requires i <= n <= |ts| && bestIdx < n
    ensures r < n
    decreases n - i
  {
    if i == n then bestIdx
    else if ts[i].state.Ready? && Priority(i) > bestPriority then Best(ts, n, i + 1, i, Priority(i))
    else Best(ts, n, i + 1, bestIdx, bestPriority)
  }

  function BestThread(s: Table): (r: nat)
    requires Shaped(s)
    ensures r < s.n
  {
    if s.threads[s.current].state.Running? then Best(s.threads, s.n, 0, s.current, Priority(s.current))
    else Best(s.threads, s.n, 0, 0, 0)
  }

  function IrqStep(s: Table, rsp: nat): (r: (Table, nat))
    requires Shaped(s)
  {
    if s.n <= 1 then (s, 0)
    else
      var best := BestThread(s);
      if best == s.current then (s, 0)
      else
        var s1 := SaveCurrent(s, rsp);
        (SwitchTo(s1, best), s1.threads[best].rsp)
  }

  // ---------- creation, exit, blocking ----------

  /** The first terminated slot after slot 0, or the slot past the used ones. */
  function FreeSlot(ts: seq<Thread>, n: nat, i: nat): (r: nat)
    requires i <= n <= |ts|
    ensures i <= r <= n
    ensures r < n ==> ts[r].state.Terminated?
    ensures forall j | i <= j < r :: !ts[j].state.Terminated?
    decreases n - i
  {
    if i == n || ts[i].state.Terminated? then i else FreeSlot(ts, n, i + 1)
  }

  /** The stack of an earlier thread in the slot, if it has the right size. */
  function KeptStack(t: Thread): nat {
    if t.stackLimit != 0 && t.stackPages == STACK_PAGES then t.stackLimit else 0
  }

  /** `thread_create`; `freshStack` is what the page allocator returns if it is asked, 0 on failure. */
  function CreateStep(s: Table, freshStack: nat): Table
    requires Shaped(s)
  {
    var slot := FreeSlot(s.threads, s.n, 1);
    if slot >= MAX_THREADS then s
    else
      var t := s.threads[slot];
      var kept := KeptStack(t);
      var t1 := t.(cr3 := if t.cr3 != 0 then s.kernelCr3 else t.cr3, stackLimit := kept,
                   stackPages := if t.stackLimit != 0 && kept == 0 then 0 else t.stackPages);
      if kept == 0 && freshStack == 0 then s.(threads := s.threads[slot := t1])
      else
        var stack := if kept != 0 then kept else freshStack;
        var top := stack + STACK_PAGES * PAGE_SIZE;
        var t2 := Thread(top - CONTEXT_SIZE, slot, Ready, stack, STACK_PAGES, s.kernelCr3, top);
        s.(threads := s.threads[slot := t2], n := if slot == s.n then s.n + 1 else s.n)
  }

  /** The address space that refilling a slot destroys. */
  function GivenSpace(s: Table): Option<nat>
    requires Shaped(s)
  {
    var slot := FreeSlot(s.threads, s.n, 1);
    if slot < MAX_THREADS && s.threads[slot].cr3 != 0 && s.threads[slot].cr3 != s.kernelCr3 then
      Some(s.threads[slot].cr3)
    else None
  }

  /** The stack, with its pages, that refilling a slot gives back. */
  function GivenStack(s: Table): Option<(nat, nat)>
    requires Shaped(s)
  {
    var slot := FreeSlot(s.threads, s.n, 1);
    if slot < MAX_THREADS && s.threads[slot].stackLimit != 0 && s.threads[slot].stackPages != STACK_PAGES then
      Some((s.threads[slot].stackLimit, s.threads[slot].stackPages))
    else None
  }

  /** No stack and no address space is lost: what the slot had is still there or was given back. */
  lemma NothingLost(s: Table, freshStack: nat)
    requires Shaped(s) && FreeSlot(s.threads, s.n, 1) < MAX_THREADS
    ensures var slot := FreeSlot(s.threads, s.n, 1);
            var t, t' := s.threads[slot], CreateStep(s, freshStack).threads[slot];
            && (t.cr3 == 0 || t.cr3 == s.kernelCr3 || GivenSpace(s) == Some(t.cr3)) && t'.cr3 in {0, s.kernelCr3}
            && (t.stackLimit == 0
                || (t'.stackLimit == t.stackLimit && t'.stackPages == t.stackPages && GivenStack(s) == None)
                || (t'.stackLimit in {0, freshStack} && GivenStack(s) == Some((t.stackLimit, t.stackPages))))
  {
  }

  /** The table's part of `process_create`: a failed allocation leaves it alone. */
  function ProcessStep(s: Table, pml4: nat, stack: nat): Table
    requires Shaped(s)
  {
    if s.n >= MAX_THREADS || pml4 == 0 || stack == 0 then s
    else
      var top := stack + STACK_PAGES * PAGE_SIZE;
      s.(threads := s.threads[s.n := Thread(top - CONTEXT_SIZE, s.n, Ready, stack, STACK_PAGES, pml4, top)],
         n := s.n + 1)
  }

  function Unblock(t: Thread): Thread {
    if t.state.Blocked? then t.(state := Ready) else t
  }

  function UnblockStep(s: Table): Table
    requires Shaped(s)
  {
    s.(threads :=
         seq(|s.threads|, i requires 0 <= i < |s.threads| => if i < s.n then Unblock(s.threads[i]) else s.threads[i]))
  }

  function ExitStep(s: Table): Table
    requires Shaped(s)
  {
    UnblockStep(s.(threads := SetState(s.threads, s.current, Terminated)))
  }

  function BlockStep(s: Table): Table
    requires Shaped(s)
  {
    s.(threads := SetState(s.threads, s.current, Blocked))
  }

  function Step(s: Table, op: Op): Table
    requires Shaped(s)
  {
    match op
    case Timer(rsp) => TimerStep(s, rsp).0
    case Irq(rsp) => IrqStep(s, rsp).0
    case CreateThread(freshStack) => CreateStep(s, freshStack)
    case CreateProcess(pml4, stack) => ProcessStep(s, pml4, stack)
    case Exit => ExitStep(s)
    case Block => BlockStep(s)
    case UnblockAll => UnblockStep(s)
  }

  // ---------- what the steps do to each thread ----------

  /** A wake-up makes every blocked thread ready and changes nothing else. */
  ghost predicate Woken(ts: seq<Thread>, n: nat, ts': seq<Thread>)
    requires n <= |ts|
  {
    && |ts'| == |ts|
    && (forall i | 0 <= i < n && ts[i].state.Blocked? :: ts'[i] == ts[i].(state := Ready))
    && (forall i | 0 <= i < |ts| && (i >= n || !ts[i].state.Blocked?) :: ts'[i] == ts[i])
  }

  lemma WakesAll(s: Table)
    requires Shaped(s)
    ensures UnblockStep(s) == s.(threads := UnblockStep(s).threads) && Woken(s.threads, s.n, UnblockStep(s).threads)
    ensures forall i | 0 <= i < s.n :: !UnblockStep(s).threads[i].state.Blocked?
  {
    var ts' := UnblockStep(s).threads;
    assert forall i | 0 <= i < |ts'| :: ts'[i] == if i < s.n then Unblock(s.threads[i]) else s.threads[i];
  }

  /** An exit terminates the current thread and wakes the others. */
  lemma ExitEffect(s: Table)
    requires Shaped(s)
    ensures ExitStep(s) == s.(threads := ExitStep(s).threads)
    ensures Woken(s.threads[s.current := s.threads[s.current].(state := Terminated)], s.n, ExitStep(s).threads)
    ensures ExitStep(s).threads[s.current] == s.threads[s.current].(state := Terminated)
    ensures forall i | 0 <= i < s.n :: !ExitStep(s).threads[i].state.Blocked?
  {
    WakesAll(s.(threads := SetState(s.threads, s.current, Terminated)));
  }

  /** The thread in a slot is new: ready, on the given page tables, with its first context at the end of its stack. */
  predicate Fresh(t: Thread, slot: nat, stackLimit: nat, cr3: nat) {
    && t.state.Ready? && t.id == slot && t.cr3 == cr3 && t.stackLimit == stackLimit && t.stackPages == 128
    && t.rsp == FirstContext(stackLimit) && t.kernelStackTop == stackLimit + t.stackPages * 4096
  }

  /** What `thread_create` does: a new thread in the slot and nowhere else, on the stack that was there or the one that
      was allocated; without a stack the slot keeps its old thread as it was, apart from what was given back. */
  lemma CreateEffect(s: Table, freshStack: nat)
    requires Shaped(s)
    ensures var slot, s' := FreeSlot(s.threads, s.n, 1), CreateStep(s, freshStack);
            && |s'.threads| == |s.threads| && s' == s.(threads := s'.threads, n := s'.n)
            && (forall i | 0 <= i < |s.threads| && i != slot :: s'.threads[i] == s.threads[i])
            && (slot >= 16 ==> s' == s)
            && (slot < 16 ==>
                  var t, t' := s.threads[slot], s'.threads[slot];
                  if KeepsStack(t) || freshStack != 0 then
                    && Fresh(t', slot, if KeepsStack(t) then t.stackLimit else freshStack, s.kernelCr3)
                    && s'.n == if slot == s.n then s.n + 1 else s.n
                  else
                    && s'.n == s.n && t'.stackLimit == 0 && t'.cr3 in {0, s.kernelCr3}
                    && t' == t.(cr3 := t'.cr3, stackLimit := 0, stackPages := t'.stackPages))
  {
  }

  /** What the end of `process_create` does: a new thread behind the others, if there is room and everything could be
      allocated, and otherwise nothing. */
  lemma ProcessEffect(s: Table, pml4: nat, stack: nat)
    requires Shaped(s)
    ensures var s' := ProcessStep(s, pml4, stack);
            && |s'.threads| == |s.threads| && s' == s.(threads := s'.threads, n := s'.n)
            && (forall i | 0 <= i < |s.threads| && i != s.n :: s'.threads[i] == s.threads[i])
            && if s.n < 16 && pml4 != 0 && stack != 0 then
                 s'.n == s.n + 1 && Fresh(s'.threads[s.n], s.n, stack, pml4)
               else s' == s
  {
  }

  // ---------- the invariant ----------

  /** Only the current thread may be running; thread 0 runs or is ready; the processor has the current thread's
      page tables and kernel stack. */
  ghost predicate Inv(s: Table) {
    && Shaped(s)
    && (forall i | 0 <= i < s.n && i != s.current :: !s.threads[i].state.Running?)
    && s.threads[0].state == (if s.current == 0 then Running else Ready)
    && (forall i | 0 <= i < s.n :: s.threads[i].id == i)
    && s.cr3 == s.threads[s.current].cr3 && s.rsp0 == s.threads[s.current].kernelStackTop
  }

  /** Thread 0 neither blocks nor exits, and a thread that has exited does nothing but wait for the next switch. */
  ghost predicate Enabled(s: Table, op: Op) {
    Shaped(s) && match op
    case Exit => s.current != 0
    case Block => s.current != 0 && !s.threads[s.current].state.Terminated?
    case CreateThread(_) => !s.threads[s.current].state.Terminated?
    case _ => true
  }

  lemma {:induction false} NextReadyFirst(ts: seq<Thread>, n: nat, cur: nat, d: nat, t: nat)
    requires cur < n <= |ts| && 1 <= d <= n + 1 && t < n && ts[t].state.Ready? && d <= Distance(n, cur, t)
    ensures var r := NextReady(ts, n, cur, d);
            r.Some? && d <= Distance(n, cur, r.value) <= Distance(n, cur, t)
    decreases n + 1 - d
  {
    if !ts[At(n, cur, d)].state.Ready? {
      NextReadyFirst(ts, n, cur, d + 1, t);
    }
  }

  lemma {:induction false} BestIsBest(ts: seq<Thread>, n: nat, i: nat, bestIdx: nat, bestPriority: nat)
    requires i <= n <= |ts| && bestIdx < n && bestPriority == Priority(bestIdx)
    ensures var r := Best(ts, n, i, bestIdx, bestPriority);
            && Priority(r) >= bestPriority
            && (r == bestIdx || ts[r].state.Ready?)
            && (forall j | i <= j < n && ts[j].state.Ready? :: Priority(j) <= Priority(r))
    decreases n - i
  {
    if i != n {
      if ts[i].state.Ready? && Priority(i) > bestPriority {
        BestIsBest(ts, n, i + 1, i, Priority(i));
      } else {
        BestIsBest(ts, n, i + 1, bestIdx, bestPriority);
      }
    }
  }

  /** The thread that an interrupt continues with is the current one or a ready one, and nothing ready outranks it. */
  lemma BestThreadRuns(s: Table)
    requires Inv(s)
    ensures var b := BestThread(s);
            && (b == s.current || s.threads[b].state.Ready?)
            && (forall j | 0 <= j < s.n && s.threads[j].state.Ready? :: Priority(j) <= Priority(b))
  {
    if s.threads[s.current].state.Running? {
      BestIsBest(s.threads, s.n, 0, s.current, Priority(s.current));
    } else {
      BestIsBest(s.threads, s.n, 0, 0, 0);
    }
  }

  /** The fallback of `schedule_interrupt` is out of reach while thread 0 is ready or running. */
  lemma TimerFindsThread(s: Table, rsp: nat)
    requires Inv(s) && s.n > 1
    ensures var s1 := SaveCurrent(s, rsp);
            NextReady(s1.threads, s1.n, s1.current, 1).Some?
  {
    var s1 := SaveCurrent(s, rsp);
    assert s1.threads[0].state.Ready?;
    NextReadyFirst(s1.threads, s1.n, s1.current, 1, 0);
  }

  lemma StepInv(s: Table, op: Op)
    requires Inv(s) && Enabled(s, op)
    ensures Inv(Step(s, op))
  {
    hide TimerStep, IrqStep, NextReady, Best;
    match op {
      case Timer(rsp) =>
        TimerInv(s, rsp);
      case Irq(rsp) =>
        IrqInv(s, rsp);
      case _ =>
    }
  }

  lemma TimerInv(s: Table, rsp: nat)
    requires Inv(s)
    ensures Inv(TimerStep(s, rsp).0)
  {
    if s.n > 1 {
      TimerFindsThread(s, rsp);
    }
  }

  lemma IrqInv(s: Table, rsp: nat)
    requires Inv(s)
    ensures Inv(IrqStep(s, rsp).0)
  {
    BestThreadRuns(s);
  }

  /** Without a ready thread `schedule_interrupt` marks the current thread running whatever its state:
      a blocked or terminated thread comes back to life exactly when nothing at all is ready. */
  lemma FallbackRevives(s: Table, rsp: nat)
    requires Shaped(s) && s.n > 1 && (s.threads[s.current].state.Blocked? || s.threads[s.current].state.Terminated?)
    ensures TimerStep(s, rsp).0.threads[s.current].state.Running? <==>
            forall i | 0 <= i < s.n :: !s.threads[i].state.Ready?
  {
    var s1 := SaveCurrent(s, rsp);
    if i :| 0 <= i < s.n && s.threads[i].state.Ready? {
      NextReadyFirst(s1.threads, s1.n, s1.current, 1, i);
    }
  }

  /** After an interrupt no ready thread outranks the one that continues. */
  lemma IrqPriority(s: Table, rsp: nat)
    requires Inv(s) && s.n > 1
    ensures var s' := IrqStep(s, rsp).0;
            forall j | 0 <= j < s'.n && s'.threads[j].state.Ready? :: Priority(j) <= Priority(s'.current)
  {
    BestThreadRuns(s);
    if s.threads[s.current].state.Running? {
      BestIsBest(s.threads, s.n, 0, s.current, Priority(s.current));
    }
  }

  /**
    * Which thread an interrupt continues with: thread 1 if it can run; else the current one if it runs and is not
    * thread 0; else the lowest ready one; thread 0 only if no other is ready.
    */
  lemma IrqChoice(s: Table, rsp: nat)
    requires Inv(s) && s.n > 1
    ensures var c, ts := IrqStep(s, rsp).0.current, s.threads;
            if ts[1].state.Ready? || ts[1].state.Running? then c == 1
            else if s.current != 0 && ts[s.current].state.Running? then c == s.current
            else
              && c < s.n && (forall j | 1 <= j < s.n && ts[j].state.Ready? :: 1 <= c <= j)
              && (c != 0 ==> ts[c].state.Ready?)
  {
    if s.threads[s.current].state.Running? {
      BestIsLowest(s.threads, s.n, 0, s.current, Priority(s.current));
    } else {
      BestIsLowest(s.threads, s.n, 0, 0, 0);
    }
  }

  /** What the scan finds: the start if nothing ready outranks it, else the lowest of the best. */
  lemma {:induction false} BestIsLowest(ts: seq<Thread>, n: nat, i: nat, bestIdx: nat, bestPriority: nat)
    requires i <= n <= |ts| && bestIdx < n && bestPriority == Priority(bestIdx)
    ensures var r := Best(ts, n, i, bestIdx, bestPriority);
            && (forall j | i <= j < n && ts[j].state.Ready? :: Priority(j) <= Priority(r))
            && (if Priority(r) == bestPriority then r == bestIdx
                else Priority(r) > bestPriority && i <= r && ts[r].state.Ready?
                     && forall j | i <= j < r && ts[j].state.Ready? :: Priority(j) < Priority(r))
    decreases n - i
  {
    if i != n {
      if ts[i].state.Ready? && Priority(i) > bestPriority {
        BestIsLowest(ts, n, i + 1, i, Priority(i));
      } else {
        BestIsLowest(ts, n, i + 1, bestIdx, bestPriority);
      }
    }
  }

  /** A switch goes to a thread that was ready. */
  lemma SwitchesToReady(s: Table, op: Op)
    requires Inv(s) && Enabled(s, op) && Step(s, op).current != s.current
    ensures (op.Timer? || op.Irq?) && s.threads[Step(s, op).current].state.Ready?
    ensures Step(s, op).threads[Step(s, op).current].state.Running?
  {
    if op.Irq? {
      BestThreadRuns(s);
    }
  }

  /** What a switch leaves: the interrupted thread has its stack pointer stored and is ready if it ran, the one it goes
      to is running, and every other field and thread is as before. */
  lemma SwitchEffect(s: Table, op: Op)
    requires Inv(s) && (op.Timer? || op.Irq?)
    ensures var s', cur := Step(s, op), s.threads[s.current];
            && s' == s.(threads := s'.threads, current := s'.current, cr3 := s'.cr3, rsp0 := s'.rsp0) && Shaped(s')
            && (s.n == 1 || (op.Irq? && s'.current == s.current) ==> s' == s)
            && (s.n > 1 && op.Timer? && s'.current == s.current ==>
                  s'.threads == s.threads[s.current := cur.(rsp := op.rsp, state := Running)])
            && (s'.current != s.current ==>
                  && s'.threads[s.current] ==
                     cur.(rsp := op.rsp, state := if cur.state.Running? then Ready else cur.state)
                  && s'.threads[s'.current] == s.threads[s'.current].(state := Running)
                  && forall i | 0 <= i < |s.threads| && i != s.current && i != s'.current ::
                       s'.threads[i] == s.threads[i])
  {
    hide NextReady, Best;
    if op.Irq? {
      BestThreadRuns(s);
    } else if s.n > 1 {
      TimerFindsThread(s, op.rsp);
    }
  }

  // ---------- terminated slots ----------

  /** `op` refills slot `i`. */
  predicate Refills(s: Table, op: Op, i: nat)
    requires Shaped(s)
  {
    op.CreateThread? && FreeSlot(s.threads, s.n, 1) == i
  }

  lemma TerminatedStays(s: Table, op: Op, i: nat)
    requires Inv(s) && Enabled(s, op) && i < s.n && s.threads[i].state.Terminated? && !Refills(s, op, i)
    ensures i < Step(s, op).n && Step(s, op).threads[i].state.Terminated?
    ensures Step(s, op).current == i ==> s.current == i
  {
    match op {
      case Timer(rsp) =>
        if s.n > 1 {
          TimerFindsThread(s, rsp);
        }
      case Irq(rsp) =>
        BestThreadRuns(s);
      case _ =>
    }
  }

  // ---------- runs ----------

  ghost predicate EnabledRun(s: Table, ops: seq<Op>)
    requires Inv(s)
    decreases |ops|
  {
    |ops| == 0 || (Enabled(s, ops[0]) && (StepInv(s, ops[0]); EnabledRun(Step(s, ops[0]), ops[1..])))
  }

  ghost function Run(s: Table, ops: seq<Op>): Table
    requires Inv(s) && EnabledRun(s, ops)
    decreases |ops|
  {
    if |ops| == 0 then s else StepInv(s, ops[0]); Run(Step(s, ops[0]), ops[1..])
  }

  ghost predicate NeverRefilled(s: Table, ops: seq<Op>, i: nat)
    requires Inv(s) && EnabledRun(s, ops)
    decreases |ops|
  {
    |ops| == 0 || (!Refills(s, ops[0], i) && (StepInv(s, ops[0]); NeverRefilled(Step(s, ops[0]), ops[1..], i)))
  }

  /** Over every run: the invariant holds, and a terminated slot that is not the current one is not resumed before it
      is refilled. */
  lemma {:induction false} RunSafety(s: Table, ops: seq<Op>, i: nat)
    requires Inv(s) && EnabledRun(s, ops)
    ensures Inv(Run(s, ops))
    ensures i < s.n && s.threads[i].state.Terminated? && NeverRefilled(s, ops, i) ==>
              i < Run(s, ops).n && Run(s, ops).threads[i].state.Terminated?
              && (s.current != i ==> Run(s, ops).current != i)
    decreases |ops|
  {
    if |ops| != 0 {
      StepInv(s, ops[0]);
      RunSafety(Step(s, ops[0]), ops[1..], i);
      if i < s.n && s.threads[i].state.Terminated? && NeverRefilled(s, ops, i) {
        TerminatedStays(s, ops[0], i);
      }
    }
  }

  // ---------- contexts: resumed where they were left ----------

  datatype Event = Saved(thread: nat, rsp: nat) | Created(thread: nat, rsp: nat) | Resumed(thread: nat, rsp: nat)

  /** What a step does to contexts, from its inputs and from the stack pointer that it returns to the interrupt stub. */
  ghost function Events(s: Table, op: Op): seq<Event>
    requires Shaped(s)
  {
    var s' := Step(s, op);
    match op
    case Timer(rsp) =>
      if s.n <= 1 then [] else [Saved(s.current, rsp), Resumed(s'.current, TimerStep(s, rsp).1)]
    case Irq(rsp) =>
      if s'.current == s.current then [] else [Saved(s.current, rsp), Resumed(s'.current, IrqStep(s, rsp).1)]
    case CreateThread(freshStack) =>
      var slot := FreeSlot(s.threads, s.n, 1);
      if slot >= MAX_THREADS then []
      else if KeepsStack(s.threads[slot]) then [Created(slot, FirstContext(s.threads[slot].stackLimit))]
      else if freshStack != 0 then [Created(slot, FirstContext(freshStack))]
      else []
    case CreateProcess(pml4, stack) =>
      if s.n < MAX_THREADS && pml4 != 0 && stack != 0 then [Created(s.n, FirstContext(stack))] else []
    case _ => []
  }

  /** Where the first context of a thread lies: 15 registers and the 5 words of an interrupt frame, at the very end of a
      stack of 128 pages. */
  function FirstContext(stackLimit: nat): nat {
    stackLimit + 128 * 4096 - (15 + 5) * 8
  }

  /** The slot has a stack of 128 pages. */
  predicate KeepsStack(t: Thread) {
    t.stackLimit != 0 && t.stackPages == 128
  }

  /** The context that was last stored for a thread. */
  ghost function LastContext(log: seq<Event>, t: nat): Option<nat> {
    if |log| == 0 then None
    else
      var e := log[|log| - 1];
      if !e.Resumed? && e.thread == t then Some(e.rsp) else LastContext(log[..|log| - 1], t)
  }

  ghost predicate Faithful(log: seq<Event>) {
    forall k | 0 <= k < |log| && log[k].Resumed? :: LastContext(log[..k], log[k].thread) == Some(log[k].rsp)
  }

  /** Every thread that is not running has its last stored context in its slot. */
  ghost predicate ContextsKept(s: Table, log: seq<Event>)
    requires Shaped(s)
  {
    forall i | 0 <= i < s.n && i != s.current :: LastContext(log, i) == Some(s.threads[i].rsp)
  }

  lemma AppendEvent(log: seq<Event>, e: Event)
    requires Faithful(log) && (e.Resumed? ==> LastContext(log, e.thread) == Some(e.rsp))
    ensures Faithful(log + [e])
    ensures forall t ::
              LastContext(log + [e], t) == if !e.Resumed? && e.thread == t then Some(e.rsp) else LastContext(log, t)
  {
    var l := log + [e];
    assert l[..|l| - 1] == log;
    forall k | 0 <= k < |l| && l[k].Resumed?
      ensures LastContext(l[..k], l[k].thread) == Some(l[k].rsp)
    {
      assert l[..k] == log[..k];
    }
  }

  lemma StepContexts(s: Table, op: Op, log: seq<Event>)
    requires Inv(s) && Enabled(s, op) && ContextsKept(s, log) && Faithful(log)
    ensures Inv(Step(s, op)) && ContextsKept(Step(s, op), log + Events(s, op)) && Faithful(log + Events(s, op))
  {
    hide LastContext, Faithful, Inv;
    StepInv(s, op);
    assert Shaped(s) && Shaped(Step(s, op)) by { InvShaped(s); InvShaped(Step(s, op)); }
    var e := Events(s, op);
    if |e| == 0 {
      assert log + e == log;
      QuietStep(s, op, log);
    } else if op.Timer? || op.Irq? {
      var rsp := op.rsp;
      SwitchShape(s, op);
      var s' := Step(s, op);
      AppendEvent(log, Saved(s.current, rsp));
      var log1 := log + [Saved(s.current, rsp)];
      AppendEvent(log1, Resumed(s'.current, e[1].rsp));
      assert log + e == log1 + [Resumed(s'.current, e[1].rsp)];
    } else {
      AppendEvent(log, e[0]);
      assert e == [e[0]];
      CreateShape(s, op);
    }
  }

  lemma InvShaped(s: Table)
    requires Inv(s)
    ensures Shaped(s)
  {
  }

  /** A step without events keeps the stored context of every waiting thread. */
  lemma QuietStep(s: Table, op: Op, log: seq<Event>)
    requires Inv(s) && Enabled(s, op) && Inv(Step(s, op)) && Events(s, op) == [] && ContextsKept(s, log)
    ensures ContextsKept(Step(s, op), log)
  {
    hide LastContext;
    if op.CreateThread? {
      CreateQuiet(s, op.freshStack);
    } else if op.Irq? {
      assert Step(s, op).current == s.current;
    }
  }

  lemma CreateQuiet(s: Table, freshStack: nat)
    requires Inv(s) && Events(s, CreateThread(freshStack)) == []
    ensures var s' := CreateStep(s, freshStack);
            s'.n == s.n && s'.current == s.current && forall i | 0 <= i < s.n :: s'.threads[i].rsp == s.threads[i].rsp
  {
  }

  /** A switch stores the interrupted context and hands out the stored context of the thread it goes to. */
  lemma SwitchShape(s: Table, op: Op)
    requires Inv(s) && (op.Timer? || op.Irq?) && Events(s, op) != []
    ensures var s' := Step(s, op);
            && Shaped(s') && s'.n == s.n
            && |Events(s, op)| == 2 && Events(s, op)[0] == Saved(s.current, op.rsp)
            && Events(s, op)[1] == Resumed(s'.current, s'.threads[s'.current].rsp)
            && (forall i | 0 <= i < s.n :: s'.threads[i].rsp == if i == s.current then op.rsp else s.threads[i].rsp)
  {
    if op.Timer? {
      TimerFindsThread(s, op.rsp);
    }
  }

  lemma CreateShape(s: Table, op: Op)
    requires Inv(s) && Enabled(s, op) && !op.Timer? && !op.Irq? && Events(s, op) != []
    ensures var s' := Step(s, op);
            var e := Events(s, op)[0];
            && Shaped(s') && |Events(s, op)| == 1 && e.Created? && e.thread < s'.n && s'.current == s.current
            && s.n <= s'.n
            && s'.threads[e.thread].rsp == e.rsp
            && (forall i | 0 <= i < s'.n && i != e.thread :: i < s.n && s'.threads[i].rsp == s.threads[i].rsp)
  {
  }

  ghost function RunLog(s: Table, ops: seq<Op>): seq<Event>
    requires Inv(s) && EnabledRun(s, ops)
    decreases |ops|
  {
    if |ops| == 0 then [] else StepInv(s, ops[0]); Events(s, ops[0]) + RunLog(Step(s, ops[0]), ops[1..])
  }

  /** Over every run of the scheduler each switch resumes a thread with exactly the stack pointer that was last saved
      for it or created with it. */
  lemma {:induction false} RunContexts(s: Table, ops: seq<Op>, log: seq<Event>)
    requires Inv(s) && EnabledRun(s, ops) && ContextsKept(s, log) && Faithful(log)
    ensures Faithful(log + RunLog(s, ops))
    decreases |ops|
  {
    hide Faithful, Inv, Events, LastContext;
    if |ops| == 0 {
      assert log + RunLog(s, ops) == log;
    } else {
      StepContexts(s, ops[0], log);
      RunContexts(Step(s, ops[0]), ops[1..], log + Events(s, ops[0]));
      assert log + RunLog(s, ops) == log + Events(s, ops[0]) + RunLog(Step(s, ops[0]), ops[1..]);
    }
  }

  // ---------- bounded waiting ----------

  /** Requests under which the number of slots stays fixed and only round robin switches. */
  predicate RoundRobin(op: Op) {
    op.Timer? || op.Block? || op.Exit? || op.UnblockAll?
  }

  function Timers(ops: seq<Op>): nat {
    if |ops| == 0 then 0 else (if ops[0].Timer? then 1 else 0) + Timers(ops[1..])
  }

  /** `t` is switched to at some timer tick or yield of the run. */
  ghost predicate ResumedDuring(s: Table, ops: seq<Op>, t: nat)
    requires Inv(s) && EnabledRun(s, ops)
    decreases |ops|
  {
    |ops| != 0 && (StepInv(s, ops[0]);
                   (ops[0].Timer? && Step(s, ops[0]).current == t) || ResumedDuring(Step(s, ops[0]), ops[1..], t))
  }

  /** One tick either resumes `t` or brings the current slot strictly closer to it. The current thread itself may be
      ready: something woke it up between its `sched_block_current` and the yield. */
  lemma TimerProgress(s: Table, rsp: nat, t: nat)
    requires Inv(s) && t < s.n && s.threads[t].state.Ready?
    ensures var s' := TimerStep(s, rsp).0;
            s'.n == s.n && s'.current < s.n &&
            (s'.current == t
             || (s'.threads[t].state.Ready? && Distance(s.n, s'.current, t) < Distance(s.n, s.current, t)))
  {
    var s1 := SaveCurrent(s, rsp);
    NextReadyFirst(s1.threads, s1.n, s1.current, 1, t);
  }

  lemma OtherStepsWait(s: Table, op: Op, t: nat)
    requires Inv(s) && Enabled(s, op) && RoundRobin(op) && !op.Timer? && t < s.n
    requires s.threads[t].state.Ready? && (t == s.current ==> !op.Block? && !op.Exit?)
    ensures var s' := Step(s, op); s'.n == s.n && s'.current == s.current && s'.threads[t].state.Ready?
  {
  }

  /** The current thread neither blocks nor exits before the next tick, as once it is on its way to yield. */
  predicate Yields(ops: seq<Op>)
    decreases |ops|
  {
    |ops| == 0 || ops[0].Timer? || (!ops[0].Block? && !ops[0].Exit? && Yields(ops[1..]))
  }

  /** A ready thread is resumed after at most as many ticks as its distance from the current slot, hence within `n`
      ticks; also the current thread, when it is ready and yields. */
  lemma {:induction false} BoundedWaiting(s: Table, ops: seq<Op>, t: nat)
    requires Inv(s) && EnabledRun(s, ops) && forall op | op in ops :: RoundRobin(op)
    requires t < s.n && s.threads[t].state.Ready? && (t == s.current ==> Yields(ops))
    ensures Distance(s.n, s.current, t) <= s.n
    ensures Timers(ops) >= Distance(s.n, s.current, t) ==> ResumedDuring(s, ops, t)
    decreases |ops|
  {
    if |ops| != 0 {
      var op := ops[0];
      var s' := Step(s, op);
      StepInv(s, op);
      assert forall o | o in ops[1..] :: RoundRobin(o);
      if op.Timer? {
        TimerProgress(s, op.rsp, t);
        if s'.current != t {
          BoundedWaiting(s', ops[1..], t);
        }
      } else {
        OtherStepsWait(s, op, t);
        BoundedWaiting(s', ops[1..], t);
      }
    }
  }

  /** The requests that wake threads. */
  predicate Wakes(op: Op) {
    op.UnblockAll? || op.Exit?
  }

  /** A blocked thread that a request wakes is resumed within `n` ticks after it; also the current one, when it
      yields. */
  lemma WokenResumed(s: Table, op: Op, ops: seq<Op>, t: nat)
    requires Inv(s) && Enabled(s, op) && Wakes(op) && t < s.n && s.threads[t].state.Blocked?
    requires Inv(Step(s, op)) && EnabledRun(Step(s, op), ops) && forall o | o in ops :: RoundRobin(o)
    requires t == s.current ==> op.UnblockAll? && Yields(ops)
    ensures Step(s, op).threads[t] == s.threads[t].(state := Ready)
    ensures Timers(ops) >= s.n ==> ResumedDuring(Step(s, op), ops, t)
  {
    hide Inv, EnabledRun, ResumedDuring, Timers, UnblockStep, ExitStep, Distance;
    assert Shaped(s);
    WakesAll(s);
    ExitEffect(s);
    BoundedWaiting(Step(s, op), ops, t);
  }

  /** A blocked thread stays blocked, and is not resumed, as long as nothing wakes it. */
  lemma {:induction false} BlockedWaits(s: Table, ops: seq<Op>, t: nat)
    requires Inv(s) && EnabledRun(s, ops) && t < s.n && s.threads[t].state.Blocked?
    requires forall op | op in ops :: !Wakes(op)
    ensures Shaped(Run(s, ops)) && t < Run(s, ops).n && Run(s, ops).threads[t].state.Blocked?
    ensures s.current != t ==> Run(s, ops).current != t && Run(s, ops).threads[t] == s.threads[t]
    decreases |ops|
  {
    hide Inv, EnabledRun, Run, Step;
    InvShaped(s);
    RunStart(s, ops);
    if |ops| != 0 {
      assert forall o | o in ops[1..] :: !Wakes(o);
      StepInv(s, ops[0]);
      StepWaits(s, ops[0], t);
      BlockedWaits(Step(s, ops[0]), ops[1..], t);
    }
  }

  lemma RunStart(s: Table, ops: seq<Op>)
    requires Inv(s) && EnabledRun(s, ops)
    ensures if |ops| == 0 then Run(s, ops) == s
            else Enabled(s, ops[0]) && Inv(Step(s, ops[0])) && EnabledRun(Step(s, ops[0]), ops[1..])
                 && Run(s, ops) == Run(Step(s, ops[0]), ops[1..])
  {
    hide Inv, Enabled, Step;
    if |ops| != 0 {
      StepInv(s, ops[0]);
    }
  }

  lemma StepWaits(s: Table, op: Op, t: nat)
    requires Inv(s) && Enabled(s, op) && !Wakes(op) && t < s.n && s.threads[t].state.Blocked?
    ensures var s' := Step(s, op);
            && Shaped(s') && t < s'.n && s'.threads[t].state.Blocked?
            && (s.current != t ==> s'.current != t && s'.threads[t] == s.threads[t])
  {
    hide Best, NextReady, UnblockStep, ExitStep;
    match op {
      case Timer(rsp) =>
        if s.n > 1 {
          TimerFindsThread(s, rsp);
        }
      case Irq(rsp) =>
        BestThreadRuns(s);
      case _ =>
    }
  }

  // ---------- the table in memory ----------

  class ThreadTable {
    const threads: array<Thread>
    const kernelCr3: nat
    var n: nat
    var current: nat
    var cr3: nat
    var rsp0: nat

    function Value(): Table
      reads this, threads
    {
      Table(threads[..], n, current, kernelCr3, cr3, rsp0)
    }

    /** `sched_init`: the boot thread runs in slot 0. */
    constructor (threads: array<Thread>, kernelCr3: nat)
      requires threads.Length == MAX_THREADS
      modifies threads
      ensures Inv(Value()) && n == 1 && current == 0 && ContextsKept(Value(), [])
      ensures this.threads == threads && this.kernelCr3 == kernelCr3
    {
      this.threads, this.kernelCr3, n, current, cr3, rsp0 := threads, kernelCr3, 1, 0, kernelCr3, BOOT_STACK_TOP;
      new;
      threads[0] := threads[0].(id := 0, rsp := 0, state := Running, stackLimit := 0,
                                cr3 := kernelCr3, kernelStackTop := BOOT_STACK_TOP);
    }

    method SetStateOf(i: nat, state: State)
      requires i < threads.Length
      modifies threads
      ensures threads[..] == old(SetState(threads[..], i, state))
    {
      threads[i] := threads[i].(state := state);
    }

    method SaveContext(rsp: nat)
      requires Shaped(Value())
      modifies threads
      ensures Value() == old(SaveCurrent(Value(), rsp))
    {
      threads[current] := threads[current].(rsp := rsp);
      if threads[current].state.Running? {
        threads[current] := threads[current].(state := Ready);
      }
      assert threads[..] == old(SaveCurrent(Value(), rsp)).threads;
    }

    /** The common end of both switch paths. */
    method Switch(next: nat) returns (rsp: nat)
      requires Shaped(Value()) && next < n
      modifies this`current, this`cr3, this`rsp0, threads
      ensures Value() == old(SwitchTo(Value(), next)) && rsp == old(threads[next].rsp)
    {
      SetStateOf(next, Running);
      current := next;
      rsp0 := threads[next].kernelStackTop;
      cr3 := threads[next].cr3;
      return threads[next].rsp;
    }

    /** `schedule_interrupt` */
    method ScheduleInterrupt(rsp: nat) returns (r: nat)
      requires Shaped(Value())
      modifies this`current, this`cr3, this`rsp0, threads
      ensures (Value(), r) == old(TimerStep(Value(), rsp))
    {
      if n <= 1 {
        return 0;
      }
      SaveContext(rsp);
      var next := FindReady();
      if !threads[next].state.Ready? {
        SetStateOf(current, Running);
        return 0;
      }
      r := Switch(next);
    }

    /** The round-robin search: the first ready slot after the current one, or some slot that is not ready if there is
        none. */
    method FindReady() returns (next: nat)
      requires Shaped(Value())
      ensures next < n
      ensures if threads[next].state.Ready? then NextReady(threads[..], n, current, 1) == Some(next)
              else NextReady(threads[..], n, current, 1) == None
    {
      hide At, After;
      next := After(current, n);
      var loopCount := 0;
      assert next == At(n, current, 1) by { NextAfter(n, current); }
      while !threads[next].state.Ready? && loopCount < n
        invariant loopCount <= n && next < n
        invariant next == if loopCount < n then At(n, current, loopCount + 1) else At(n, current, 1)
        invariant NextReady(threads[..], n, current, 1) == NextReady(threads[..], n, current, loopCount + 1)
        invariant loopCount >= 1 ==> !threads[At(n, current, 1)].state.Ready?
      {
        NextAround(n, current, loopCount + 1, next);
        next := After(next, n);
        loopCount := loopCount + 1;
      }
    }

    /** `schedule_irq`, after the device handler has run */
    method ScheduleIrq(rsp: nat) returns (r: nat)
      requires Shaped(Value())
      modifies this`current, this`cr3, this`rsp0, threads
      ensures (Value(), r) == old(IrqStep(Value(), rsp))
    {
      if n <= 1 {
        return 0;
      }
      var bestIdx: nat := current;
      var bestPriority: nat := 0;
      if threads[current].state.Running? {
        bestPriority := if current == 1 then 2 else if current == 0 then 0 else 1;
      } else {
        bestIdx := 0;
      }
      for i := 0 to n
        invariant bestIdx < n && Value() == old(Value())
        invariant Best(threads[..], n, i, bestIdx, bestPriority) == BestThread(Value())
      {
        if threads[i].state.Ready? {
          var prio := if i == 1 then 2 else if i == 0 then 0 else 1;
          if prio > bestPriority {
            bestPriority, bestIdx := prio, i;
          }
        }
      }
      if bestIdx == current {
        return 0;
      }
      SaveContext(rsp);
      r := Switch(bestIdx);
    }

    /** The search of `thread_create` */
    method FindFree() returns (slot: nat)
      requires Shaped(Value())
      ensures slot == FreeSlot(threads[..], n, 1)
    {
      slot := 1;
      while slot < n && !threads[slot].state.Terminated?
        invariant 1 <= slot <= n && FreeSlot(threads[..], n, slot) == FreeSlot(threads[..], n, 1)
      {
        slot := slot + 1;
      }
    }

    /** `thread_create`; the page allocator's answer is a parameter, and what the slot gives back is returned. */
    method CreateThread(freshStack: nat) returns (space: Option<nat>, stack: Option<(nat, nat)>)
      requires Shaped(Value())
      modifies this`n, threads
      ensures Value() == old(CreateStep(Value(), freshStack))
      ensures space == old(GivenSpace(Value())) && stack == old(GivenStack(Value()))
    {
      space, stack := None, None;
      var slot := FindFree();
      if slot >= MAX_THREADS {
        return;
      }
      if threads[slot].cr3 != 0 && threads[slot].cr3 != kernelCr3 {
        space := Some(threads[slot].cr3);
        threads[slot] := threads[slot].(cr3 := kernelCr3);
      }
      if threads[slot].stackLimit != 0 && threads[slot].stackPages != STACK_PAGES {
        stack := Some((threads[slot].stackLimit, threads[slot].stackPages));
        threads[slot] := threads[slot].(stackLimit := 0, stackPages := 0);
      }
      if threads[slot].stackLimit == 0 {
        if freshStack == 0 {
          assert threads[..] == old(CreateStep(Value(), freshStack)).threads;
          return;
        }
        threads[slot] := threads[slot].(stackLimit := freshStack, stackPages := STACK_PAGES);
      }
      var top := threads[slot].stackLimit + STACK_PAGES * PAGE_SIZE;
      threads[slot] := threads[slot].(id := slot, rsp := top - CONTEXT_SIZE, state := Ready, cr3 := kernelCr3,
                                      kernelStackTop := top);
      if slot == n {
        n := n + 1;
      }
      assert threads[..] == old(CreateStep(Value(), freshStack)).threads;
    }

    /** The end of `process_create`, once its allocations have succeeded or failed. */
    method CreateProcess(pml4: nat, stack: nat)
      requires Shaped(Value())
      modifies this`n, threads
      ensures Value() == old(ProcessStep(Value(), pml4, stack))
    {
      if n >= MAX_THREADS || pml4 == 0 || stack == 0 {
        return;
      }
      var top := stack + STACK_PAGES * PAGE_SIZE;
      threads[n] := Thread(top - CONTEXT_SIZE, n, Ready, stack, STACK_PAGES, pml4, top);
      n := n + 1;
      assert threads[..] == old(ProcessStep(Value(), pml4, stack)).threads;
    }

    /** `sched_unblock_all` */
    method UnblockAll()
      requires Shaped(Value())
      modifies threads
      ensures Value() == old(UnblockStep(Value()))
      ensures n == old(n) && current == old(current) && Woken(old(threads[..]), n, threads[..])
    {
      for i := 0 to n
        invariant n == old(n) && current == old(current) && cr3 == old(cr3) && rsp0 == old(rsp0)
        invariant forall k | 0 <= k < threads.Length ::
                    threads[k] == if k < i then Unblock(old(threads[k])) else old(threads[k])
      {
        if threads[i].state.Blocked? {
          threads[i] := threads[i].(state := Ready);
        }
      }
      assert threads[..] == old(UnblockStep(Value())).threads;
    }

    /** `thread_exit` up to the final yield */
    method Exit()
      requires Shaped(Value())
      modifies threads
      ensures Value() == old(ExitStep(Value()))
      ensures threads[current] == old(threads[current]).(state := Terminated)
      ensures forall i | 0 <= i < n && i != current && old(threads[i]).state.Blocked? ::
                threads[i] == old(threads[i]).(state := Ready)
      ensures forall i | 0 <= i < threads.Length && i != current && (i >= n || !old(threads[i]).state.Blocked?) ::
                threads[i] == old(threads[i])
    {
      ghost var s := Value();
      ExitEffect(s);
      SetStateOf(current, Terminated);
      UnblockAll();
    }

    /** `sched_block_current` up to the yield */
    method BlockCurrent()
      requires Shaped(Value())
      modifies threads
      ensures Value() == old(BlockStep(Value()))
      ensures threads[current] == old(threads[current]).(state := Blocked)
      ensures forall i | 0 <= i < threads.Length && i != current :: threads[i] == old(threads[i])
    {
      SetStateOf(current, Blocked);
    }
  }

  function After(i: nat, n: nat): (r: nat)
    requires n > 0
    ensures r < n
  {
    (i + 1) % n
  }

  lemma NextAfter(n: nat, cur: nat)
    requires cur < n
    ensures After(cur, n) == At(n, cur, 1)
  {
    NextWraps(cur, n);
  }

  lemma NextAround(n: nat, cur: nat, d: nat, next: nat)
    requires cur < n && 1 <= d <= n && next == At(n, cur, d)
    ensures After(next, n) == if d < n then At(n, cur, d + 1) else At(n, cur, 1)
  {
    NextWraps(next, n);
  }

  lemma NextWraps(i: nat, n: nat)
    requires i < n
    ensures After(i, n) == if i + 1 < n then i + 1 else 0
  {
  }
}

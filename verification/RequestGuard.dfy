/** The request guard of proxy/active_request_guard.rs, and the cleanup that removes its unused counters,
    as a protocol: any number of threads, each atomic access one step, every interleaving a run. */
module RequestGuard {

  const U32_MAX: nat := 0xFFFF_FFFF

  /** Where a thread stands in `try_new`: outside it, before looking the counter up, before the load, or
      between load and exchange. From the lookup on it holds a reference to the counter. */
  datatype Pc =
    | Idle
    | Looking(key: string, max: nat)
    | Loading(key: string, max: nat)
    | Comparing(key: string, max: nat, seen: nat)

  /** `guards` are the live guards by identity; `released` counts the guards given up by `release`. */
  datatype State = State(counters: map<string, nat>, threads: map<nat, Pc>, guards: map<nat, string>,
                         released: map<string, nat>)

  datatype Step =
    | New(key: string, guard: nat)
    | BeginTry(thread: nat, key: string, max: nat)
    | Lookup(thread: nat)
    | Load(thread: nat)
    | Exchange(thread: nat, guard: nat, spurious: bool)   // compare_exchange_weak may fail for no reason
    | Release(guard: nat)
    | Drop(guard: nat)
    | Sweep(key: string)                                  // the cleanup removes a counter that shows zero

  const EMPTY := State(map[], map[], map[], map[])

  function PcOf(s: State, t: nat): Pc {
    if t in s.threads then s.threads[t] else Idle
  }

  function Count(s: State, key: string): nat {
    if key in s.counters then s.counters[key] else 0
  }

  function ReleasedCount(s: State, key: string): nat {
    if key in s.released then s.released[key] else 0
  }

  function LiveGuards(s: State, key: string): set<nat> {
    set g | g in s.guards && s.guards[g] == key
  }

  predicate Refers(pc: Pc, key: string) {
    (pc.Loading? || pc.Comparing?) && pc.key == key
  }

  /** The cleanup waits for the references to an entry. */
  predicate Referenced(s: State, key: string) {
    exists t | t in s.threads :: Refers(s.threads[t], key)
  }

  predicate Enabled(s: State, step: Step) {
    match step
    case New(_, g) => g !in s.guards
    case BeginTry(t, _, max) => PcOf(s, t).Idle? && max <= U32_MAX
    case Lookup(t) => PcOf(s, t).Looking?
    case Load(t) => PcOf(s, t).Loading?
    case Exchange(t, g, _) => PcOf(s, t).Comparing? && g !in s.guards
    case Release(g) => g in s.guards
    case Drop(g) => g in s.guards
    case Sweep(key) => key in s.counters && s.counters[key] == 0 && !Referenced(s, key)
  }

  function Next(s: State, step: Step): State
    requires Enabled(s, step)
  {
    match step
    case New(key, g) =>
      // fetch_add wraps around
      s.(counters := s.counters[key := (Count(s, key) + 1) % (U32_MAX + 1)], guards := s.guards[g := key])
    case BeginTry(t, key, max) =>
      s.(counters := s.counters[key := Count(s, key)], threads := s.threads[t := Looking(key, max)])
    case Lookup(t) =>
      var pc := PcOf(s, t);
      s.(threads := s.threads[t := if pc.key in s.counters then Loading(pc.key, pc.max) else Idle])
    case Load(t) =>
      var pc := PcOf(s, t);
      var current := Count(s, pc.key);
      s.(threads := s.threads[t := if current >= pc.max then Idle else Comparing(pc.key, pc.max, current)])
    case Exchange(t, g, spurious) =>
      var pc := PcOf(s, t);
      if Count(s, pc.key) == pc.seen && !spurious then
        s.(counters := s.counters[pc.key := pc.seen + 1], threads := s.threads[t := Idle],
           guards := s.guards[g := pc.key])
      else s.(threads := s.threads[t := Loading(pc.key, pc.max)])
    case Release(g) =>
      var key := s.guards[g];
      s.(guards := s.guards - {g}, released := s.released[key := ReleasedCount(s, key) + 1])
    case Drop(g) =>
      var key := s.guards[g];
      s.(guards := s.guards - {g},
         counters := if key in s.counters && s.counters[key] > 0 then s.counters[key := s.counters[key] - 1]
                     else s.counters)
    case Sweep(key) => s.(counters := s.counters - {key})
  }

  // ---------- One step ----------

  ghost predicate Balanced(s: State, key: string) {
    Count(s, key) == |LiveGuards(s, key)| + ReleasedCount(s, key)
  }

  /** A thread adds one only below its limit, and the counter it refers to is there. */
  predicate ThreadFits(s: State, t: nat) {
    var pc := PcOf(s, t);
    && (!pc.Idle? ==> pc.max <= U32_MAX)
    && (pc.Comparing? ==> pc.seen < pc.max)
    && (pc.Loading? || pc.Comparing? ==> pc.key in s.counters)
  }

  ghost predicate Inv(s: State) {
    && (forall key :: Balanced(s, key))
    && (forall t :: ThreadFits(s, t))
  }

  lemma GuardAdded(s: State, g: nat, key: string, k: string)
    requires g !in s.guards
    ensures |LiveGuards(s.(guards := s.guards[g := key]), k)| == |LiveGuards(s, k)| + (if k == key then 1 else 0)
  {
    var s' := s.(guards := s.guards[g := key]);
    assert g !in LiveGuards(s, k);
    assert LiveGuards(s', k) == LiveGuards(s, k) + (if k == key then {g} else {});
  }

  lemma GuardRemoved(s: State, g: nat, k: string)
    requires g in s.guards
    ensures |LiveGuards(s.(guards := s.guards - {g}), k)| == |LiveGuards(s, k)| - (if k == s.guards[g] then 1 else 0)
  {
    var s' := s.(guards := s.guards - {g});
    if k == s.guards[g] {
      assert g in LiveGuards(s, k);
      assert LiveGuards(s', k) == LiveGuards(s, k) - {g};
    } else {
      assert LiveGuards(s', k) == LiveGuards(s, k);
    }
  }

  /** An unconditional acquisition must not be made at a full counter. */
  predicate NoWrap(s: State, step: Step) {
    step.New? ==> Count(s, step.key) < U32_MAX
  }

  lemma SameGuards(s: State, s': State)
    requires s'.guards == s.guards
    ensures forall k :: LiveGuards(s', k) == LiveGuards(s, k)
  {}

  /** The balance of every key survives every step, exactly when the step does not wrap a counter. */
  lemma StepKeepsInv(s: State, step: Step)
    requires Inv(s) && Enabled(s, step)
    ensures Inv(Next(s, step)) <==> NoWrap(s, step)
  {
    if !NoWrap(s, step) {
      WrapUnbalances(s, step);
    } else {
      hide NoWrap, Balanced, ThreadFits, Enabled, Next;
      forall k ensures Balanced(Next(s, step), k) {
        StepKeepsBalance(s, step, k);
      }
      forall t: nat ensures ThreadFits(Next(s, step), t) {
        StepKeepsThread(s, step, t);
      }
    }
  }

  lemma WrapUnbalances(s: State, step: Step)
    requires Inv(s) && Enabled(s, step) && !NoWrap(s, step)
    ensures !Balanced(Next(s, step), step.key)
  {
    hide LiveGuards;
    assert Balanced(s, step.key);
    GuardAdded(s, step.guard, step.key, step.key);
    SameGuards(s.(guards := s.guards[step.guard := step.key]), Next(s, step));
  }

  lemma StepKeepsThread(s: State, step: Step, t: nat)
    requires Inv(s) && Enabled(s, step)
    ensures ThreadFits(Next(s, step), t)
  {
    assert ThreadFits(s, t);
    if step.Sweep? && t in s.threads {
      assert !Refers(s.threads[t], step.key);
    }
    hide Balanced;
  }

  lemma StepKeepsBalance(s: State, step: Step, k: string)
    requires Inv(s) && Enabled(s, step) && NoWrap(s, step)
    ensures Balanced(Next(s, step), k)
  {
    hide LiveGuards;
    var s' := Next(s, step);
    assert Balanced(s, k);
    match step
    case New(key, g) =>
      GuardAdded(s, g, key, k);
      SameGuards(s.(guards := s.guards[g := key]), s');
    case BeginTry(_, _, _) => SameGuards(s, s');
    case Lookup(_) => SameGuards(s, s');
    case Load(_) => SameGuards(s, s');
    case Sweep(_) => SameGuards(s, s');
    case Exchange(t, g, spurious) =>
      var pc := PcOf(s, t);
      GuardAdded(s, g, pc.key, k);
      if Count(s, pc.key) == pc.seen && !spurious {
        SameGuards(s.(guards := s.guards[g := pc.key]), s');
      } else {
        SameGuards(s, s');
      }
    case Release(g) =>
      GuardRemoved(s, g, k);
      SameGuards(s.(guards := s.guards - {g}), s');
    case Drop(g) =>
      GuardRemoved(s, g, k);
      SameGuards(s.(guards := s.guards - {g}), s');
      DropFindsOne(s, g);
  }

  /** The `v > 0` test of a drop always succeeds, so no decrement is ever lost. */
  lemma DropFindsOne(s: State, g: nat)
    requires Inv(s) && g in s.guards
    ensures Count(s, s.guards[g]) >= 1
  {
    assert Balanced(s, s.guards[g]);
    assert g in LiveGuards(s, s.guards[g]);
  }

  /** What the steps of a guard's life do: a new one and a successful exchange add one live guard and one to the
      counter; a drop takes both away, a release only the guard; the rest touch no guard and no count. */
  lemma StepEffects(s: State, step: Step, key: string)
    requires Inv(s) && Enabled(s, step) && NoWrap(s, step)
    ensures var s' := Next(s, step);
      match step
      case New(k, g) =>
        s'.guards == s.guards[g := k] && Count(s', key) == Count(s, key) + (if key == k then 1 else 0)
      case Exchange(t, g, spurious) =>
        var k := s.threads[t].key;
        if !spurious && Count(s, k) == s.threads[t].seen
        then s'.guards == s.guards[g := k] && Count(s', key) == Count(s, key) + (if key == k then 1 else 0)
        else s'.guards == s.guards && s'.counters == s.counters && PcOf(s', t) == Loading(k, s.threads[t].max)
      case Drop(g) =>
        && s'.guards == s.guards - {g}
        && Count(s', key) == Count(s, key) - (if key == s.guards[g] then 1 else 0)
      case Release(g) => s'.guards == s.guards - {g} && Count(s', key) == Count(s, key)
      case _ => s'.guards == s.guards && Count(s', key) == Count(s, key)
  {
    if step.Drop? {
      DropFindsOne(s, step.guard);
    }
    hide Balanced, ThreadFits;
  }

  // ---------- Runs ----------

  ghost predicate IsRun(s: State, steps: seq<Step>)
    decreases |steps|
  {
    steps == [] || (Enabled(s, steps[0]) && NoWrap(s, steps[0]) && IsRun(Next(s, steps[0]), steps[1..]))
  }

  function Final(s: State, steps: seq<Step>): State
    requires IsRun(s, steps)
    decreases |steps|
  {
    if steps == [] then s else Final(Next(s, steps[0]), steps[1..])
  }

  lemma {:induction false} RunKeepsInv(s: State, steps: seq<Step>)
    requires Inv(s) && IsRun(s, steps)
    ensures Inv(Final(s, steps))
    decreases |steps|
  {
    hide Inv;
    if steps != [] {
      StepKeepsInv(s, steps[0]);
      RunKeepsInv(Next(s, steps[0]), steps[1..]);
    }
  }

  /** In every interleaving a counter is its live guards plus the explicitly released ones. */
  lemma CounterIsGuards(steps: seq<Step>, key: string)
    requires IsRun(EMPTY, steps)
    ensures var s := Final(EMPTY, steps);
      Count(s, key) == |LiveGuards(s, key)| + ReleasedCount(s, key)
  {
    assert Inv(EMPTY) by {
      forall k ensures Balanced(EMPTY, k) {
        assert LiveGuards(EMPTY, k) == {};
      }
    }
    RunKeepsInv(EMPTY, steps);
    assert Balanced(Final(EMPTY, steps), key);
  }

  // ---------- The limit ----------

  /** All acquisitions of a key go through `try_new` with limits of at most `m`. */
  ghost predicate TriesOnly(steps: seq<Step>, key: string, m: nat) {
    forall i | 0 <= i < |steps| ::
      && !(steps[i].New? && steps[i].key == key)
      && (steps[i].BeginTry? && steps[i].key == key ==> steps[i].max <= m)
  }

  ghost predicate Within(s: State, key: string, m: nat) {
    && Count(s, key) <= m
    && (forall t | t in s.threads && !s.threads[t].Idle? && s.threads[t].key == key :: s.threads[t].max <= m)
    && (forall t | t in s.threads && s.threads[t].Comparing? && s.threads[t].key == key ::
        s.threads[t].seen < s.threads[t].max)
  }

  lemma StepStaysWithin(s: State, step: Step, key: string, m: nat)
    requires Within(s, key, m) && Enabled(s, step)
    requires !(step.New? && step.key == key)
    requires step.BeginTry? && step.key == key ==> step.max <= m
    ensures Within(Next(s, step), key, m)
  {
    if step.Exchange? {
      assert step.thread in s.threads;
    }
  }

  /** However the threads interleave, between a load and its exchange, the limit holds. */
  lemma {:induction false} LimitHolds(s: State, steps: seq<Step>, key: string, m: nat)
    requires Within(s, key, m) && IsRun(s, steps) && TriesOnly(steps, key, m)
    ensures Count(Final(s, steps), key) <= m
    decreases |steps|
  {
    hide Within;
    if steps == [] {
      WithinCount(s, key, m);
    } else {
      StepStaysWithin(s, steps[0], key, m);
      assert forall i | 0 <= i < |steps[1..]| :: steps[1..][i] == steps[i + 1];
      LimitHolds(Next(s, steps[0]), steps[1..], key, m);
    }
  }

  lemma WithinCount(s: State, key: string, m: nat)
    requires Within(s, key, m)
    ensures Count(s, key) <= m
  {}

  /** So at most `m` guards of the key are ever live together. */
  lemma LiveWithinLimit(steps: seq<Step>, key: string, m: nat)
    requires IsRun(EMPTY, steps) && TriesOnly(steps, key, m)
    ensures |LiveGuards(Final(EMPTY, steps), key)| + ReleasedCount(Final(EMPTY, steps), key) <= m
  {
    LimitHolds(EMPTY, steps, key, m);
    CounterIsGuards(steps, key);
  }

  // ---------- Refusals ----------

  /** The step ends the attempt of thread `t` without a guard. */
  predicate Refuses(s: State, step: Step, t: nat)
    requires Enabled(s, step)
  {
    !PcOf(s, t).Idle? && PcOf(Next(s, step), t).Idle? && Next(s, step).guards == s.guards
  }

  /** An attempt is refused in two ways: its load finds the limit reached by the live and released
      guards, or its lookup finds no counter. A thread that is not disturbed after its lookup gets in. */
  lemma TryDecides(s: State, step: Step, t: nat, g: nat)
    requires Inv(s) && Enabled(s, step) && g !in s.guards
    ensures Refuses(s, step, t) <==>
      || (step == Load(t)
          && |LiveGuards(s, PcOf(s, t).key)| + ReleasedCount(s, PcOf(s, t).key) >= PcOf(s, t).max)
      || (step == Lookup(t) && PcOf(s, t).key !in s.counters)
    ensures step == Load(t) && !Refuses(s, step, t) ==>
      var loaded := Next(s, step);
      Enabled(loaded, Exchange(t, g, false)) && g in Next(loaded, Exchange(t, g, false)).guards
  {
    if step == Load(t) {
      assert Balanced(s, PcOf(s, t).key);
    }
    if step.Exchange? && step.thread == t {
      assert step.guard !in s.guards;
    }
  }

  /** These steps put a counter in place if there is none. */
  predicate Inserts(step: Step, key: string) {
    (step.New? || step.BeginTry?) && step.key == key
  }

  /** The cleanup removed the counter, and nothing has put it back. */
  predicate Swept(steps: seq<Step>, key: string)
    decreases |steps|
  {
    steps != [] &&
    var last := steps[|steps| - 1];
    last == Sweep(key) || (!Inserts(last, key) && Swept(steps[..|steps| - 1], key))
  }

  /** In every interleaving, a counter that was there is gone exactly when it was swept. */
  lemma {:induction false} GoneIffSwept(s: State, steps: seq<Step>, key: string)
    requires Inv(s) && IsRun(s, steps) && key in s.counters
    ensures key !in Final(s, steps).counters <==> Swept(steps, key)
    decreases |steps|
  {
    if steps != [] {
      var front, last := steps[..|steps| - 1], steps[|steps| - 1];
      assert front + [last] == steps;
      RunSnoc(s, front, last);
      GoneIffSwept(s, front, key);
      RunKeepsInv(s, front);
      hide IsRun, Final, Swept;
      CounterAfter(Final(s, front), last, key);
    }
  }

  lemma CounterAfter(s: State, step: Step, key: string)
    requires Inv(s) && Enabled(s, step)
    ensures key in Next(s, step).counters <==> Inserts(step, key) || (key in s.counters && step != Sweep(key))
  {
    if step.Exchange? {
      assert ThreadFits(s, step.thread);
    }
  }

  lemma {:induction false} RunSnoc(s: State, front: seq<Step>, last: Step)
    requires IsRun(s, front + [last])
    ensures IsRun(s, front) && Enabled(Final(s, front), last) && NoWrap(Final(s, front), last)
    ensures Final(s, front + [last]) == Next(Final(s, front), last)
    decreases |front|
  {
    hide NoWrap;
    var steps := front + [last];
    if front == [] {
      assert steps[1..] == [] && steps[0] == last;
    } else {
      assert steps[1..] == front[1..] + [last] && steps[0] == front[0];
      RunSnoc(Next(s, front[0]), front[1..], last);
    }
  }

  predicate StepOf(step: Step, t: nat) {
    (step.BeginTry? || step.Lookup? || step.Load? || step.Exchange?) && step.thread == t
  }

  /** So between entering `try_new` and its lookup, a thread loses its counter to the cleanup exactly
      when the counter is swept after the thread put it there, and not put back by another. */
  lemma LookupFailsIff(s: State, t: nat, key: string, max: nat, steps: seq<Step>)
    requires Inv(s) && Enabled(s, BeginTry(t, key, max))
    requires IsRun(Next(s, BeginTry(t, key, max)), steps) && forall i | 0 <= i < |steps| :: !StepOf(steps[i], t)
    ensures var end := Final(Next(s, BeginTry(t, key, max)), steps);
      && Enabled(end, Lookup(t))
      && (Refuses(end, Lookup(t), t) <==> Swept(steps, key))
  {
    var begun := Next(s, BeginTry(t, key, max));
    StepKeepsInv(s, BeginTry(t, key, max));
    GoneIffSwept(begun, steps, key);
    StaysPut(begun, steps, t);
  }

  lemma {:induction false} StaysPut(s: State, steps: seq<Step>, t: nat)
    requires IsRun(s, steps) && forall i | 0 <= i < |steps| :: !StepOf(steps[i], t)
    ensures PcOf(Final(s, steps), t) == PcOf(s, t)
    decreases |steps|
  {
    if steps != [] {
      assert forall i | 0 <= i < |steps[1..]| :: steps[1..][i] == steps[i + 1];
      StaysPut(Next(s, steps[0]), steps[1..], t);
    }
  }

  /** A first attempt on a key, swept before its lookup, is refused although no guard is live. */
  lemma SweptAttempt(key: string, max: nat)
    requires 0 < max <= U32_MAX
    ensures var steps := [BeginTry(0, key, max), Sweep(key), Lookup(0)];
      && IsRun(EMPTY, steps)
      && PcOf(Final(EMPTY, steps), 0).Idle? && LiveGuards(Final(EMPTY, steps), key) == {}
      && ReleasedCount(Final(EMPTY, steps), key) == 0
  {
    var s1 := Next(EMPTY, BeginTry(0, key, max));
    assert !Referenced(s1, key);
    var s2 := Next(s1, Sweep(key));
    var s3 := Next(s2, Lookup(0));
    var steps := [BeginTry(0, key, max), Sweep(key), Lookup(0)];
    assert steps[1..] == [Sweep(key), Lookup(0)] && steps[1..][1..] == [Lookup(0)] && [Lookup(0)][1..] == [];
    assert IsRun(s2, [Lookup(0)]) && Final(s2, [Lookup(0)]) == Final(s3, []) == s3;
    assert IsRun(s1, steps[1..]) && Final(s1, steps[1..]) == s3;
    assert Final(EMPTY, steps) == s3;
  }
}

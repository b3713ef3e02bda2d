/** The multi-level feedback queue scheduler (pintos/src/threads/thread.c) with its 17.14 fixed-point
    arithmetic (pintos/src/threads/fixed-point.h). */
module Mlfq {
  import opened Basics
  import D = Division

  // ---------------------------------------------------------------- fixed-point formulas

  /** FMUL_F: multiply two fixed-point numbers; C division truncates toward zero. */
  function FMul(x: int, y: int): int { D.TruncDiv(x * y, 16384) }

  /** FDIV_F. */
  function FDiv(x: int, y: int): int
    requires y != 0
  {
    D.TruncDiv(x * 16384, y)
  }

  /** load_avg = (59/60) * load_avg + (1/60) * active, with the constants as C rounds them. */
  function NextLoad(load: int, active: int): int {
    FMul(D.TruncDiv(59 * 16384, 60), load) + D.TruncDiv(16384, 60) * active
  }

  /** 2 * load_avg / (2 * load_avg + 1). */
  function Decay(load: nat): int { FDiv(load * 2, load * 2 + 16384) }

  function NextCpu(load: nat, cpu: int, nice: int): int { FMul(Decay(load), cpu) + nice * 16384 }

  function Priority(cpu: int, nice: int): (p: nat)
    ensures p <= 63
  {
    var p := 63 - nice * 2 - D.TruncDiv(D.TruncDiv(cpu, 4), 16384);
    if p < 0 then 0 else if p > 63 then 63 else p
  }

  // ---------------------------------------------------------------- what the formulas mean

  /** The load average is 59/60 of the old one plus 1/60 of the number of active threads, rounded down: what
      is lost, times 60, is exactly the constants' rounding (56/16384 of the old value and 4 units a thread)
      and less than one unit of the result. */
  lemma LoadLaw(load: nat, active: nat)
    ensures var lost := 59 * load + 16384 * active - 60 * NextLoad(load, active);
            && 0 <= 16384 * (lost - 4 * active) - 56 * load < 60 * 16384
            && 0 <= lost <= 61 + 4 * active + 56 * load / 16384
  {
    assert D.TruncDiv(59 * 16384, 60) == 16110 && D.TruncDiv(16384, 60) == 273;
    var x := 16110 * load;
    assert D.TruncDiv(x, 16384) == x / 16384;
    assert 0 <= x - 16384 * (x / 16384) < 16384;
  }

  /** More active threads mean a higher load. */
  lemma LoadGrows(load: nat, active: nat)
    ensures NextLoad(load, active + 1) == NextLoad(load, active) + 273
  {
    assert D.TruncDiv(16384, 60) == 273;
  }

  /** The decay factor is the fraction 2 * load / (2 * load + 1), rounded down. */
  lemma DecayLaw(load: nat)
    ensures var y := 2 * load + 16384; 0 <= 2 * load * 16384 - Decay(load) * y < y
  {
    var x, y := load * 2 * 16384, load * 2 + 16384;
    assert D.TruncDiv(x, y) == x / y;
    DivisionLaw(x, y);
  }

  lemma DivisionLaw(x: nat, y: nat)
    requires y > 0
    ensures 0 <= x - x / y * y < y
  {
  }

  /** recent_cpu is that fraction of the old value, rounded toward zero, plus the niceness: short of the exact
      product by less than 1 + |recent_cpu| units in the last place. */
  lemma CpuLaw(load: nat, cpu: int, nice: int)
    ensures var y, kept := 2 * load + 16384, NextCpu(load, cpu, nice) - nice * 16384;
            if cpu >= 0 then 0 <= 16384 * (2 * load * cpu - y * kept) < y * (cpu + 16384)
            else 0 <= 16384 * (y * kept - 2 * load * cpu) < y * (16384 - cpu)
  {
    DecayLaw(load);
    var c, y := Decay(load), 2 * load + 16384;
    DecayBound(load, load);
    if cpu >= 0 {
      KeptLaw(load, c, y, cpu);
    } else {
      KeptLaw(load, c, y, -cpu);
      assert c * cpu == -(c * (-cpu)) && 2 * load * cpu == -(2 * load * (-cpu));
      assert FMul(c, cpu) == -FMul(c, -cpu);
      NegatedProduct(y, FMul(c, -cpu));
    }
  }

  lemma NegatedProduct(y: int, k: int)
    ensures y * (-k) == -(y * k)
  {
  }

  lemma KeptLaw(load: nat, c: int, y: nat, cpu: nat)
    requires 0 <= c && 0 <= 2 * load * 16384 - c * y < y
    ensures FMul(c, cpu) >= 0
    ensures 0 <= 16384 * (2 * load * cpu - y * FMul(c, cpu)) < y * (cpu + 16384)
  {
    TruncatedProduct(c, cpu);
    var k, e := FMul(c, cpu), 2 * load * 16384 - c * y;
    assert 0 <= c * cpu - 16384 * k < 16384;
    ScaledErrors(load, c, y, cpu, k, e);
  }

  /** The two roundings, brought to a common denominator. */
  lemma ScaledErrors(load: nat, c: int, y: nat, cpu: nat, k: int, e: int)
    requires e == 2 * load * 16384 - c * y && 0 <= e < y && 0 <= c * cpu - 16384 * k < 16384
    ensures 0 <= 16384 * (2 * load * cpu - y * k) < y * (cpu + 16384)
  {
    var d := c * cpu - 16384 * k;
    assert 16384 * (2 * load * cpu) == (2 * load * 16384) * cpu == (c * y + e) * cpu == c * y * cpu + e * cpu;
    assert c * y * cpu == y * (c * cpu) == y * (16384 * k + d) == 16384 * (y * k) + y * d;
    MulMono(cpu, 0, e);
    MulMono(cpu, e, y);
    MulMono(y, 0, d);
    MulMono(y, d, 16383);
  }

  /** 65536 times the priority as the documentation defines it, before rounding and clamping. */
  function ExactPriority(cpu: int, nice: int): int { 65536 * (63 - 2 * nice) - cpu }

  /** The priority is the documented one, kept within 0..63 and rounded to an integer: up for a thread that
      has used the processor, down for one whose recent_cpu is negative. */
  lemma PriorityLaw(cpu: int, nice: int)
    ensures var p, v := Priority(cpu, nice), ExactPriority(cpu, nice);
            if cpu >= 0 then (p > 0 ==> 65536 * (p - 1) < v) && (p < 63 ==> v <= 65536 * p)
            else (p > 0 ==> 65536 * p <= v) && (p < 63 ==> v < 65536 * (p + 1))
  {
    NestedTruncation(cpu);
  }

  lemma NestedTruncation(x: int)
    ensures var q := D.TruncDiv(D.TruncDiv(x, 4), 16384);
            if x >= 0 then 65536 * q <= x < 65536 * (q + 1) else 65536 * (q - 1) < x <= 65536 * q
  {
    var a := if x >= 0 then x else -x;
    assert D.TruncDiv(x, 4) == if x >= 0 then a / 4 else -(a / 4);
    var b := a / 4;
    assert D.TruncDiv(D.TruncDiv(x, 4), 16384) == if x >= 0 then b / 16384 else -(b / 16384);
  }

  /** The documented priority: rounded down, then clamped. */
  function DocumentedPriority(cpu: int, nice: int): int {
    Clamped(ExactPriority(cpu, nice) / 65536)
  }

  /** The code's rounding shows unless nothing is rounded, the rounding is down anyway, or the clamp hides it. */
  lemma PriorityAsDocumentedIff(cpu: int, nice: int)
    ensures Priority(cpu, nice) == DocumentedPriority(cpu, nice) <==>
            var v := ExactPriority(cpu, nice);
            cpu <= 0 || cpu % 65536 == 0 || v < 0 || v > 63 * 65536
  {
    PriorityLaw(cpu, nice);
    var p, v := Priority(cpu, nice), ExactPriority(cpu, nice);
    var q := v / 65536;
    FloorOf(v, q);
    if cpu > 0 {
      RoundedUp(p, q, v);
      MultipleIff(cpu, 63 - 2 * nice, v, q);
    } else if cpu < 0 {
      RoundedDown(p, q, v);
    } else {
      assert v == 65536 * (63 - 2 * nice);
    }
  }

  lemma FloorOf(v: int, q: int)
    requires q == v / 65536
    ensures 65536 * q <= v < 65536 * (q + 1)
  {
  }

  function Clamped(p: int): int { if p < 0 then 0 else if p > 63 then 63 else p }

  lemma RoundedUp(p: int, q: int, v: int)
    requires 0 <= p <= 63 && (p > 0 ==> 65536 * (p - 1) < v) && (p < 63 ==> v <= 65536 * p)
    requires 65536 * q <= v < 65536 * (q + 1)
    ensures p == Clamped(q) <==> v == 65536 * q || v < 0 || v > 63 * 65536
  {
  }

  lemma RoundedDown(p: int, q: int, v: int)
    requires 0 <= p <= 63 && (p > 0 ==> 65536 * p <= v) && (p < 63 ==> v < 65536 * (p + 1))
    requires 65536 * q <= v < 65536 * (q + 1)
    ensures p == Clamped(q)
  {
  }

  lemma MultipleIff(cpu: int, k: int, v: int, q: int)
    requires v == 65536 * k - cpu && 65536 * q <= v < 65536 * (q + 1)
    ensures v == 65536 * q <==> cpu % 65536 == 0
  {
    var r := v - 65536 * q;
    assert cpu == 65536 * (k - q) - r;
    if r > 0 {
      assert cpu == 65536 * (k - q - 1) + (65536 - r);
      RemainderIs(cpu, k - q - 1, 65536 - r);
    } else {
      RemainderIs(cpu, k - q, 0);
    }
  }

  lemma RemainderIs(x: int, q: int, r: int)
    requires x == 65536 * q + r && 0 <= r < 65536
    ensures x % 65536 == r
  {
  }

  /** A thread that has used the processor for one tick: 63, where the documentation asks for 62. */
  lemma PriorityRoundsUp()
    ensures Priority(16384, 0) == 63 && DocumentedPriority(16384, 0) == 62
  {
    PriorityLaw(16384, 0);
  }

  /** thread_get_recent_cpu: ROUND_TO_INT of 100 times the value. */
  function RecentCpuReported(cpu: int): int {
    var x := cpu * 100;
    D.TruncDiv(if x >= 0 then x + 8192 else x - 8192, 16384)
  }

  /** It is the nearest integer, halves away from zero. */
  lemma RecentCpuIsNearest(cpu: int)
    ensures var r := RecentCpuReported(cpu);
            if cpu >= 0 then -8192 <= 100 * cpu - 16384 * r < 8192 else -8192 < 100 * cpu - 16384 * r <= 8192
  {
    var a := if cpu >= 0 then cpu * 100 + 8192 else -(cpu * 100) + 8192;
    assert RecentCpuReported(cpu) == if cpu >= 0 then a / 16384 else -(a / 16384);
  }

  /** thread_get_load_avg: TO_INT of 100 times the value. */
  function LoadReported(load: nat): int { D.TruncDiv(load * 100, 16384) }

  /** It should be the nearest integer too, and is so exactly when the fraction is below one half. */
  lemma LoadIsNearestIff(load: nat)
    ensures var r := LoadReported(load);
            && 0 <= 100 * load - 16384 * r < 16384
            && (-8192 <= 100 * load - 16384 * r < 8192 <==> 100 * load % 16384 < 8192)
    ensures FitsInt(100 * load) <==> load <= 21474836
  {
    var x := load * 100;
    assert LoadReported(load) == x / 16384;
  }

  /** With at most n active threads the load average never exceeds n. */
  lemma LoadBound(load: int, active: int, n: int)
    requires 0 <= load <= n * 16384 && 0 <= active <= n
    ensures 0 <= NextLoad(load, active) <= n * 16384
  {
    assert D.TruncDiv(59 * 16384, 60) == 16110 && D.TruncDiv(16384, 60) == 273;
    OldLoad(load, n);
  }

  lemma OldLoad(load: int, n: int)
    requires 0 <= load <= n * 16384
    ensures 0 <= FMul(16110, load) <= 16110 * n
  {
    assert 0 <= 16110 * load <= 16384 * (16110 * n);
  }

  /** The decay is a fraction below 1: at most 2n / (2n + 1). */
  lemma DecayBound(load: nat, n: nat)
    requires load <= n * 16384
    ensures 0 <= Decay(load) < 16384 && Decay(load) * (2 * n + 1) <= 2 * n * 16384
  {
    var y := load * 2 + 16384;
    var c := (load * 2 * 16384) / y;
    QuotientFacts(load * 2 * 16384, y, c);
    DecayCap(load, y, c);
    DecayFits(load, c, n);
  }

  lemma QuotientFacts(x: nat, y: nat, c: int)
    requires y > 0 && c == x / y
    ensures 0 <= c && c * y <= x
  {
  }

  lemma DecayCap(load: nat, y: nat, c: int)
    requires y == load * 2 + 16384 && 0 <= c && c * y <= load * 2 * 16384
    ensures c < 16384 && c * 16384 <= 2 * (load * (16384 - c))
  {
    if c >= 16384 {
      MulMono(y, 16384, c);
    }
    assert c * y == 2 * (load * c) + c * 16384;
  }

  lemma DecayFits(load: nat, c: int, n: nat)
    requires load <= n * 16384 && 0 <= c < 16384 && c * 16384 <= 2 * (load * (16384 - c))
    ensures c * (2 * n + 1) <= 2 * n * 16384
  {
    MulMono(16384 - c, load, n * 16384);
    assert (n * 16384) * (16384 - c) == 16384 * (n * 16384 - n * c);
  }

  /** A thread's recent_cpu right after a refresh, and after up to 100 more ticks. */
  ghost predicate CpuOk(n: nat, cpu: int, ticks: nat) {
    -(40 * n + 20) * 16384 <= cpu <= (240 * n + 20 + ticks) * 16384
  }

  /** Refreshing after at most 100 ticks brings recent_cpu back within its bounds, for good. */
  lemma CpuBound(load: nat, cpu: int, nice: int, n: nat, ticks: nat)
    requires load <= n * 16384 && -20 <= nice <= 20 && ticks <= 100 && CpuOk(n, cpu, ticks)
    ensures CpuOk(n, NextCpu(load, cpu, nice), 0)
  {
    DecayBound(load, n);
    Decayed(Decay(load), cpu, n);
  }

  lemma Decayed(c: int, cpu: int, n: nat)
    requires 0 <= c && c * (2 * n + 1) <= 2 * n * 16384
    requires -(40 * n + 20) * 16384 <= cpu <= (240 * n + 120) * 16384
    ensures -40 * n * 16384 <= FMul(c, cpu) <= 240 * n * 16384
  {
    if cpu >= 0 {
      ProductUpper(c, cpu, n);
      TruncatedProduct(c, cpu);
    } else {
      ProductLower(c, -cpu, n);
      TruncatedProduct(c, -cpu);
      assert c * cpu == -(c * (-cpu));
    }
  }

  lemma TruncatedProduct(c: int, x: int)
    requires 0 <= c && 0 <= x
    ensures D.TruncDiv(c * x, 16384) == (c * x) / 16384 && D.TruncDiv(-(c * x), 16384) == -((c * x) / 16384)
  {
    var y := c * x;
    assert y >= 0;
  }

  lemma ProductUpper(c: int, cpu: int, n: nat)
    requires 0 <= c && c * (2 * n + 1) <= 2 * n * 16384 && 0 <= cpu <= (240 * n + 120) * 16384
    ensures 0 <= c * cpu && (c * cpu) / 16384 <= 240 * n * 16384
  {
    MulMono(c, cpu, (240 * n + 120) * 16384);
    assert (240 * n + 120) * 16384 * c == 16384 * (120 * (c * (2 * n + 1)));
  }

  lemma ProductLower(c: int, cpu: int, n: nat)
    requires 0 <= c && c * (2 * n + 1) <= 2 * n * 16384 && 0 <= cpu <= (40 * n + 20) * 16384
    ensures 0 <= c * cpu && (c * cpu) / 16384 <= 40 * n * 16384
  {
    MulMono(c, cpu, (40 * n + 20) * 16384);
    assert (40 * n + 20) * 16384 * c == 16384 * (20 * (c * (2 * n + 1)));
  }

  ghost predicate FitsInt(x: int) { -0x8000_0000 <= x < 0x8000_0000 }

  ghost predicate FitsInt64(x: int) { -0x8000_0000_0000_0000 <= x < 0x8000_0000_0000_0000 }

  /** load_avg is a 32-bit long, its products are taken in 64 bits: with load_avg at most n, no
      intermediate value of its formulas leaves its C type exactly when n <= 65535. */
  lemma LoadFits(n: nat)
    ensures n <= 65535 <==> forall load :: 0 <= load <= n * 16384 ==> LoadFormulasFit(load)
  {
    if n <= 65535 {
      forall load | 0 <= load <= n * 16384
        ensures LoadFormulasFit(load)
      {
      }
    } else {
      assert !LoadFormulasFit(65536 * 16384);
    }
  }

  ghost predicate LoadFormulasFit(load: int) {
    && FitsInt(load) && FitsInt64(16110 * load)
    && FitsInt(load * 2 + 16384) && FitsInt64(load * 2 * 16384)
  }

  /** recent_cpu is kept in 64 bits and only the priority it gives is an int. */
  lemma CpuFits(n: nat, load: nat, cpu: int, nice: int, active: nat)
    requires n <= 65535 && load <= n * 16384 && active <= n && -20 <= nice <= 20 && CpuOk(n, cpu, 100)
    ensures FitsInt(273 * active) && FitsInt64(Decay(load) * cpu) && FitsInt(nice * 16384)
    ensures FitsInt64(NextCpu(load, cpu, nice))
    ensures FitsInt(63 - nice * 2 - D.TruncDiv(D.TruncDiv(cpu, 4), 16384))
  {
    DecayBound(load, n);
    CpuBound(load, cpu, nice, n, 100);
    var c := Decay(load);
    assert -0x1_0000_0000_00 <= cpu <= 0x1_0000_0000_00;
    if cpu >= 0 {
      MulMono(cpu, c, 16384);
    } else {
      MulMono(-cpu, c, 16384);
    }
  }

  // ---------------------------------------------------------------- threads and queues

  type Tid = nat

  datatype Status = Running | Ready | Blocked

  datatype Thread = Thread(status: Status, nice: int, cpu: int, priority: nat, sleep: nat)

  /** The queue that a thread belongs on, if any; the idle thread is on none. */
  predicate Queued(idle: Tid, t: Tid, th: Thread) { t != idle && th.status.Ready? }

  ghost predicate OnQueue(threads: map<Tid, Thread>, idle: Tid, p: nat, t: Tid) {
    t in threads && Queued(idle, t, threads[t]) && threads[t].priority == p
  }

  /** Every ready thread but idle is on the queue of its own priority, once, and on no other; nothing
      else is on a queue. */
  ghost predicate QueuesOk(threads: map<Tid, Thread>, idle: Tid, queues: seq<seq<Tid>>) {
    && |queues| == 64
    && (forall p :: 0 <= p < 64 ==> Distinct(queues[p]))
    && (forall p, t :: 0 <= p < 64 ==> (t in queues[p] <==> OnQueue(threads, idle, p, t)))
  }

  lemma EnqueueOk(threads: map<Tid, Thread>, idle: Tid, queues: seq<seq<Tid>>, t: Tid, th: Thread)
    requires QueuesOk(threads, idle, queues) && (t in threads ==> !Queued(idle, t, threads[t]))
    requires Queued(idle, t, th) && th.priority <= 63
    ensures QueuesOk(threads[t := th], idle, queues[th.priority := queues[th.priority] + [t]])
  {
    var p := th.priority;
    AppendDistinct(queues[p], t);
    var threads', queues' := threads[t := th], queues[p := queues[p] + [t]];
    forall q, u | 0 <= q < 64
      ensures u in queues'[q] <==> OnQueue(threads', idle, q, u)
    {
      assert u in queues[q] <==> OnQueue(threads, idle, q, u);
    }
  }

  lemma DequeueOk(threads: map<Tid, Thread>, idle: Tid, queues: seq<seq<Tid>>, t: Tid, th: Thread)
    requires QueuesOk(threads, idle, queues) && t in threads && Queued(idle, t, threads[t]) && threads[t].priority <= 63
    requires !Queued(idle, t, th)
    ensures var p := threads[t].priority; QueuesOk(threads[t := th], idle, queues[p := Without(queues[p], t)])
  {
    var p := threads[t].priority;
    WithoutKeeps(queues[p], t);
    var threads', queues' := threads[t := th], queues[p := Without(queues[p], t)];
    forall q, u | 0 <= q < 64
      ensures u in queues'[q] <==> OnQueue(threads', idle, q, u)
    {
      assert u in queues[q] <==> OnQueue(threads, idle, q, u);
    }
  }

  lemma SameQueueOk(threads: map<Tid, Thread>, idle: Tid, queues: seq<seq<Tid>>, t: Tid, th: Thread)
    requires QueuesOk(threads, idle, queues) && t in threads
    requires Queued(idle, t, threads[t]) <==> Queued(idle, t, th)
    requires Queued(idle, t, th) ==> th.priority == threads[t].priority
    ensures QueuesOk(threads[t := th], idle, queues)
  {
    assert forall p, u :: OnQueue(threads[t := th], idle, p, u) <==> OnQueue(threads, idle, p, u);
  }

  // ---------------------------------------------------------------- invariant

  ghost predicate ThreadOk(n: nat, th: Thread, ticks: nat) {
    -20 <= th.nice <= 20 && CpuOk(n, th.cpu, ticks)
  }

  ghost predicate BoundsOk(threads: map<Tid, Thread>, idle: Tid, n: nat, ticks: nat) {
    forall t {:trigger threads[t]} :: t in threads && t != idle ==> ThreadOk(n, threads[t], ticks)
  }

  ghost predicate PrioritiesOk(threads: map<Tid, Thread>) {
    forall t {:trigger threads[t]} :: t in threads ==> threads[t].priority <= 63
  }

  ghost predicate OneRuns(threads: map<Tid, Thread>, current: Tid) {
    && current in threads
    && forall t {:trigger threads[t]} :: t in threads ==> (threads[t].status.Running? <==> t == current)
  }

  ghost predicate NoneRuns(threads: map<Tid, Thread>) {
    forall t {:trigger threads[t]} :: t in threads ==> !threads[t].status.Running?
  }

  /** all_list names every thread once. */
  ghost predicate Lists(all: seq<Tid>, threads: map<Tid, Thread>) {
    Distinct(all) && forall t {:trigger t in all} :: t in all <==> t in threads
  }

  predicate IsActive(threads: map<Tid, Thread>, idle: Tid, t: Tid) {
    t in threads && t != idle && !threads[t].status.Blocked?
  }

  /** How many threads of a list are ready or running, not counting idle. */
  ghost function ActiveIn(threads: map<Tid, Thread>, idle: Tid, l: seq<Tid>): nat {
    if l == [] then 0
    else ActiveIn(threads, idle, l[..|l| - 1]) + if IsActive(threads, idle, l[|l| - 1]) then 1 else 0
  }

  /** The same threads, with the same status and niceness. */
  ghost predicate SameThreads(a: map<Tid, Thread>, b: map<Tid, Thread>) {
    a.Keys == b.Keys && forall t {:trigger b[t]} :: t in a ==> b[t].status == a[t].status && b[t].nice == a[t].nice
  }

  function Woken(th: Thread): Thread {
    if th.status.Blocked? && th.sleep > 0 then
      th.(sleep := th.sleep - 1, status := if th.sleep == 1 then Ready else Blocked)
    else th
  }

  /** How many threads of a list will be active once the sleepers that are due have been woken. */
  ghost function StirringIn(threads: map<Tid, Thread>, idle: Tid, l: seq<Tid>): nat {
    ActiveIn(map t | t in threads :: Woken(threads[t]), idle, l)
  }

  lemma {:induction false} ActiveSame(a: map<Tid, Thread>, b: map<Tid, Thread>, idle: Tid, l: seq<Tid>)
    requires SameThreads(a, b)
    ensures ActiveIn(a, idle, l) == ActiveIn(b, idle, l)
  {
    if l != [] {
      ActiveSame(a, b, idle, l[..|l| - 1]);
      assert l[|l| - 1] in a ==> b[l[|l| - 1]].status == a[l[|l| - 1]].status;
    }
  }

  /** Waking changes no recent_cpu; charging adds one tick to one of them. */
  lemma ChargedBounds(before: map<Tid, Thread>, woken: map<Tid, Thread>, charged: map<Tid, Thread>, idle: Tid,
                      current: Tid, n: nat, k: nat)
    requires BoundsOk(before, idle, n, k) && woken == (map t | t in before :: Woken(before[t])) && current in woken
    requires charged == woken[current := woken[current].(cpu := woken[current].cpu + 16384)]
    ensures BoundsOk(charged, idle, n, k + 1)
  {
    forall t {:trigger charged[t]} | t in charged && t != idle
      ensures ThreadOk(n, charged[t], k + 1)
    {
      assert ThreadOk(n, before[t], k);
    }
  }

  lemma StirringWake(before: map<Tid, Thread>, woken: map<Tid, Thread>, charged: map<Tid, Thread>, idle: Tid,
                     l: seq<Tid>)
    requires woken == (map t | t in before :: Woken(before[t])) && SameThreads(woken, charged)
    ensures ActiveIn(charged, idle, l) == StirringIn(before, idle, l)
  {
    ActiveSame(woken, charged, idle, l);
  }

  ghost predicate ChargedFrom(a: map<Tid, Thread>, b: map<Tid, Thread>, current: Tid) {
    && a.Keys == b.Keys
    && forall t {:trigger b[t]} :: t in a ==>
         b[t] == if t == current then Woken(a[t]).(cpu := a[t].cpu + 16384) else Woken(a[t])
  }

  ghost predicate Ticked(a: map<Tid, Thread>, b: map<Tid, Thread>, current: Tid, idle: Tid, ticks: nat, load: nat) {
    && a.Keys == b.Keys
    && forall t {:trigger b[t]} :: t in a ==> b[t] == AfterTick(a[t], t == current, t == idle, ticks, load)
  }

  ghost predicate Seconded(a: map<Tid, Thread>, b: map<Tid, Thread>, idle: Tid, all: seq<Tid>, ticks: nat, load: nat) {
    if ticks % 100 == 0 then CpuDone(a, b, idle, load, all) else b == a
  }

  ghost predicate Fourthed(a: map<Tid, Thread>, b: map<Tid, Thread>, idle: Tid, all: seq<Tid>, ticks: nat) {
    if ticks % 4 == 0 then PriorityDone(a, b, idle, all) else b == a
  }

  lemma TickedIs(a: map<Tid, Thread>, b: map<Tid, Thread>, c: map<Tid, Thread>, d: map<Tid, Thread>,
                 current: Tid, idle: Tid, all: seq<Tid>, ticks: nat, load: nat)
    requires ChargedFrom(a, b, current) && Lists(all, b)
    requires Seconded(b, c, idle, all, ticks, load) && Fourthed(c, d, idle, all, ticks)
    ensures Ticked(a, d, current, idle, ticks, load)
  {
    forall t {:trigger d[t]} | t in a
      ensures d[t] == AfterTick(a[t], t == current, t == idle, ticks, load)
    {
      assert t in all;
      assert c[t] == if ticks % 100 == 0 && t != idle then CpuRefreshed(load, b[t]) else b[t];
    }
  }

  lemma NextMod(t: nat)
    ensures (t + 1) % 100 == if t % 100 == 99 then 0 else t % 100 + 1
  {
  }

  /** next is at the head of the highest non-empty queue, or is idle when all queues are empty. */
  ghost predicate IsNext(threads: map<Tid, Thread>, idle: Tid, queues: seq<seq<Tid>>, next: Tid)
    requires QueuesOk(threads, idle, queues)
  {
    if next == idle then forall t {:trigger threads[t]} :: t in threads ==> !Queued(idle, t, threads[t])
    else
      && next in threads && Queued(idle, next, threads[next])
      && threads[next].priority <= 63
      && queues[threads[next].priority] != [] && queues[threads[next].priority][0] == next
      && forall t {:trigger threads[t]} :: t in threads && Queued(idle, t, threads[t]) ==>
           threads[t].priority <= threads[next].priority
  }

  lemma PickedIsNext(threads: map<Tid, Thread>, idle: Tid, queues: seq<seq<Tid>>, p: nat)
    requires QueuesOk(threads, idle, queues) && PrioritiesOk(threads) && p <= 63 && queues[p] != []
    requires forall q :: p < q < 64 ==> queues[q] == []
    ensures IsNext(threads, idle, queues, queues[p][0]) && OnQueue(threads, idle, p, queues[p][0])
  {
    assert queues[p][0] in queues[p];
    forall t {:trigger threads[t]} | t in threads && Queued(idle, t, threads[t])
      ensures threads[t].priority <= p
    {
      assert OnQueue(threads, idle, threads[t].priority, t);
    }
  }

  lemma NoneQueued(threads: map<Tid, Thread>, idle: Tid, queues: seq<seq<Tid>>)
    requires QueuesOk(threads, idle, queues) && PrioritiesOk(threads) && forall q :: 0 <= q < 64 ==> queues[q] == []
    ensures IsNext(threads, idle, queues, idle)
  {
    forall t {:trigger threads[t]} | t in threads
      ensures !Queued(idle, t, threads[t])
    {
      var p := threads[t].priority;
      assert t in queues[p] <==> OnQueue(threads, idle, p, t);
    }
  }

  function CpuRefreshed(load: nat, th: Thread): Thread { th.(cpu := NextCpu(load, th.cpu, th.nice)) }

  /** The running thread once its niceness is set. */
  function Reniced(load: nat, th: Thread, nice: int): Thread {
    PriorityRefreshed(CpuRefreshed(load, th.(nice := nice)))
  }

  function PriorityRefreshed(th: Thread): Thread { th.(priority := Priority(th.cpu, th.nice)) }

  /** What one tick makes of a thread: `ticks` and `load` are the values after the tick. */
  function AfterTick(th: Thread, running: bool, isIdle: bool, ticks: nat, load: nat): Thread {
    var a := if running then Woken(th).(cpu := th.cpu + 16384) else Woken(th);
    var b := if ticks % 100 == 0 && !isIdle then CpuRefreshed(load, a) else a;
    if ticks % 4 == 0 && !isIdle then PriorityRefreshed(b) else b
  }

  /** The queues after t has moved to the back of the queue of its new priority, if that changed. */
  ghost function Requeued(queues: seq<seq<Tid>>, t: Tid, was: Thread, p: nat): seq<seq<Tid>>
    requires |queues| == 64 && was.priority <= 63 && p <= 63
  {
    if was.status.Ready? && p != was.priority then
      var without := queues[was.priority := Without(queues[was.priority], t)];
      without[p := without[p] + [t]]
    else queues
  }

  ghost function Enqueued(queues: seq<seq<Tid>>, t: Tid, p: nat): seq<seq<Tid>>
    requires p < |queues|
  {
    queues[p := queues[p] + [t]]
  }

  /** The queues once next has been taken off the head of its queue. */
  ghost function Taken(threads: map<Tid, Thread>, idle: Tid, queues: seq<seq<Tid>>, next: Tid): seq<seq<Tid>>
    requires QueuesOk(threads, idle, queues) && IsNext(threads, idle, queues, next)
  {
    if next == idle then queues
    else queues[threads[next].priority := queues[threads[next].priority][1..]]
  }

  /** The state after schedule, called with these threads and queues. */
  ghost predicate Switched(threads: map<Tid, Thread>, idle: Tid, queues: seq<seq<Tid>>,
                           threads': map<Tid, Thread>, queues': seq<seq<Tid>>, current: Tid) {
    && QueuesOk(threads, idle, queues) && IsNext(threads, idle, queues, current) && current in threads
    && threads' == threads[current := threads[current].(status := Running)]
    && queues' == Taken(threads, idle, queues, current)
  }

  /** The state after t, running, has yielded. */
  ghost predicate Yielded(threads: map<Tid, Thread>, idle: Tid, queues: seq<seq<Tid>>, t: Tid,
                          threads': map<Tid, Thread>, queues': seq<seq<Tid>>, current: Tid) {
    && t in threads && threads[t].priority < |queues|
    && var q := if t == idle then queues else Enqueued(queues, t, threads[t].priority);
       Switched(threads[t := threads[t].(status := Ready)], idle, q, threads', queues', current)
  }

  /** No ready thread outranks the running one, and idle runs only when none is ready. */
  ghost predicate TopRuns(threads: map<Tid, Thread>, idle: Tid, current: Tid) {
    && current in threads
    && forall t {:trigger threads[t]} :: t in threads && Queued(idle, t, threads[t]) ==>
         current != idle && threads[t].priority <= threads[current].priority
  }

  lemma SwitchedIsTop(threads: map<Tid, Thread>, idle: Tid, queues: seq<seq<Tid>>,
                      threads': map<Tid, Thread>, queues': seq<seq<Tid>>, current: Tid)
    requires Switched(threads, idle, queues, threads', queues', current)
    ensures TopRuns(threads', idle, current)
  {
    forall t {:trigger threads'[t]} | t in threads' && Queued(idle, t, threads'[t])
      ensures current != idle && threads'[t].priority <= threads'[current].priority
    {
      assert threads'[t] == threads[t];
    }
  }

  /** h is the highest non-empty queue, -1 when all are empty. */
  ghost predicate IsHighest(queues: seq<seq<Tid>>, h: int) {
    && |queues| == 64 && -1 <= h < 64
    && (forall q :: h < q < 64 ==> queues[q] == [])
    && (h >= 0 ==> queues[h] != [])
  }

  /** A thread of priority p tops the queues exactly when p is at least the highest of them. */
  lemma TopIffHighest(threads: map<Tid, Thread>, idle: Tid, queues: seq<seq<Tid>>, current: Tid, h: int)
    requires QueuesOk(threads, idle, queues) && PrioritiesOk(threads) && IsHighest(queues, h)
    requires current in threads && current != idle
    ensures TopRuns(threads, idle, current) <==> h <= threads[current].priority
  {
    if h >= 0 {
      assert queues[h][0] in queues[h];
      assert OnQueue(threads, idle, h, queues[h][0]);
    }
    forall t {:trigger threads[t]} | t in threads && Queued(idle, t, threads[t])
      ensures threads[t].priority <= h
    {
      assert t in queues[threads[t].priority] <==> OnQueue(threads, idle, threads[t].priority, t);
    }
  }

  /** thread_set_nice compares its priority p not with the highest queue h but with 63 - h. */
  ghost predicate NiceYields(p: nat, h: int) { h >= 0 && p < 63 - h }

  /** So it stays on the processor under a more urgent ready thread exactly in this range. */
  ghost predicate NiceMisses(p: nat, h: int) { 63 - h <= p < h }

  /** A call that misses: an idle machine's running thread sets its niceness to 16, which makes its
      priority 27, and keeps the processor from a ready thread of priority 40. */
  lemma NiceCanMiss() returns (threads: map<Tid, Thread>, queues: seq<seq<Tid>>)
    ensures QueuesOk(threads, 0, queues) && PrioritiesOk(threads) && OneRuns(threads, 1) && IsHighest(queues, 40)
    ensures BoundsOk(threads, 0, 0, 0) && Reniced(0, threads[1], 16).priority == 27
    ensures !NiceYields(27, 40) && NiceMisses(27, 40)
    ensures !TopRuns(threads[1 := Reniced(0, threads[1], 16)], 0, 1)
  {
    threads := map[0 := Thread(Blocked, 0, 0, 0, 0), 1 := Thread(Running, 0, 0, 31, 0),
                   2 := Thread(Ready, 0, 0, 40, 0)];
    queues := seq(64, p => if p == 40 then [2] else []);
    assert threads[2].priority == 40 && queues[40] == [2];
    assert Decay(0) == 0 && NextCpu(0, 0, 16) == 16 * 16384;
    assert Priority(16 * 16384, 16) == 27;
    var after := threads[1 := Reniced(0, threads[1], 16)];
    assert Queued(0, 2, after[2]) && after[1].priority == 27;
  }

  /** A yield that the test makes needlessly, above all queues, changes nothing. */
  lemma NeedlessYield(threads: map<Tid, Thread>, idle: Tid, queues: seq<seq<Tid>>, t: Tid, h: int,
                      threads': map<Tid, Thread>, queues': seq<seq<Tid>>, current: Tid)
    requires QueuesOk(threads, idle, queues) && IsHighest(queues, h) && t in threads && t != idle
    requires threads[t].status.Running? && h < threads[t].priority <= 63
    requires Yielded(threads, idle, queues, t, threads', queues', current)
    ensures current == t && threads' == threads && queues' == queues
  {
    var p, parked := threads[t].priority, threads[t := threads[t].(status := Ready)];
    assert queues[p] == [] && Enqueued(queues, t, p)[p] == [t];
    assert Queued(idle, t, parked[t]);
    assert queues'[p] == [] && queues' == queues;
  }

  /** The threads of `done`, but idle, have had their recent_cpu refreshed. */
  ghost predicate CpuDone(a: map<Tid, Thread>, b: map<Tid, Thread>, idle: Tid, load: nat, done: seq<Tid>) {
    && a.Keys == b.Keys
    && forall t {:trigger b[t]} :: t in a ==> b[t] == if t != idle && t in done then CpuRefreshed(load, a[t]) else a[t]
  }

  lemma CpuStep(a: map<Tid, Thread>, b: map<Tid, Thread>, idle: Tid, load: nat, done: seq<Tid>, t: Tid)
    requires CpuDone(a, b, idle, load, done) && t in b && t !in done
    ensures CpuDone(a, if t == idle then b else b[t := CpuRefreshed(load, b[t])], idle, load, done + [t])
  {
  }

  ghost predicate PriorityDone(a: map<Tid, Thread>, b: map<Tid, Thread>, idle: Tid, done: seq<Tid>) {
    && a.Keys == b.Keys
    && forall t {:trigger b[t]} :: t in a ==> b[t] == if t != idle && t in done then PriorityRefreshed(a[t]) else a[t]
  }

  lemma PriorityStep(a: map<Tid, Thread>, b: map<Tid, Thread>, idle: Tid, done: seq<Tid>, t: Tid)
    requires PriorityDone(a, b, idle, done) && t in b && t !in done
    ensures PriorityDone(a, if t == idle then b else b[t := PriorityRefreshed(b[t])], idle, done + [t])
  {
  }

  /** A second's worth of ticks is worked off by the refresh. */
  lemma RefreshedBounds(a: map<Tid, Thread>, b: map<Tid, Thread>, idle: Tid, load: nat, all: seq<Tid>, n: nat)
    requires BoundsOk(a, idle, n, 100) && Lists(all, a) && CpuDone(a, b, idle, load, all) && load <= n * 16384
    ensures BoundsOk(b, idle, n, 0)
  {
    forall t {:trigger b[t]} | t in b && t != idle
      ensures ThreadOk(n, b[t], 0)
    {
      assert t in all && ThreadOk(n, a[t], 100);
      CpuBound(load, a[t].cpu, a[t].nice, n, 100);
    }
  }

  lemma PrioritiesKeepBounds(a: map<Tid, Thread>, b: map<Tid, Thread>, idle: Tid, all: seq<Tid>, n: nat, k: nat)
    requires BoundsOk(a, idle, n, k) && PriorityDone(a, b, idle, all)
    ensures BoundsOk(b, idle, n, k)
  {
    forall t {:trigger b[t]} | t in b && t != idle
      ensures ThreadOk(n, b[t], k)
    {
      assert ThreadOk(n, a[t], k);
    }
  }

  class Scheduler {
    var threads: map<Tid, Thread>
    var all: seq<Tid>
    var queues: seq<seq<Tid>>
    var load: int
    var ticks: nat
    var current: Tid
    const idle: Tid
    ghost const n: nat

    ghost predicate Structure()
      reads this
    {
      && QueuesOk(threads, idle, queues) && PrioritiesOk(threads) && Lists(all, threads)
      && idle in threads && threads[idle].sleep == 0 && 0 <= load <= n * 16384
    }

    /** All but the bounds on recent_cpu. */
    ghost predicate Shape()
      reads this
    {
      Structure() && OneRuns(threads, current)
    }

    /** On entry to schedule: the running thread has just given up the processor. */
    ghost predicate Parked()
      reads this
    {
      Structure() && NoneRuns(threads) && BoundsOk(threads, idle, n, ticks % 100)
    }

    /** n bounds the number of active threads. */
    ghost predicate Valid()
      reads this
    {
      Shape() && BoundsOk(threads, idle, n, ticks % 100)
    }

    /** After thread_start: the initial thread runs, the idle thread is blocked. */
    constructor (main: Tid, idleTid: Tid, ghost maxActive: nat)
      requires main != idleTid
      ensures Valid() && n == maxActive && idle == idleTid && current == main && ticks == 0
    {
      threads := map[main := Thread(Running, 0, 0, 31, 0), idleTid := Thread(Blocked, 0, 0, 0, 0)];
      all := [main, idleTid];
      queues := seq(64, _ => []);
      load, ticks, current, idle, n := 0, 0, main, idleTid, maxActive;
    }

    /** thread_active, and the first half of thread_set_load_avg. */
    method CountActive() returns (active: nat)
      requires Lists(all, threads)
      ensures active == ActiveIn(threads, idle, all)
    {
      active := 0;
      var i := 0;
      while i < |all|
        invariant 0 <= i <= |all| && active == ActiveIn(threads, idle, all[..i])
      {
        var t := all[i];
        assert all[..i + 1][..i] == all[..i] && t in all;
        if t != idle && !threads[t].status.Blocked? {
          active := active + 1;
        }
        i := i + 1;
      }
      assert all[..|all|] == all;
    }

    /** thread_set_load_avg. */
    method SetLoadAvg()
      requires Lists(all, threads) && 0 <= load <= n * 16384 && ActiveIn(threads, idle, all) <= n
      modifies `load
      ensures load == NextLoad(old(load), ActiveIn(threads, idle, all)) && 0 <= load <= n * 16384
    {
      var active := CountActive();
      LoadBound(load, active, n);
      load := NextLoad(load, active);
    }

    /** thread_refresh_recent_cpu. */
    method RefreshRecentCpu(t: Tid)
      requires Shape() && t in threads
      modifies `threads
      ensures Shape() && threads == old(threads)[t := CpuRefreshed(load, old(threads)[t])]
    {
      var th := threads[t].(cpu := NextCpu(load, threads[t].cpu, threads[t].nice));
      SameQueueOk(threads, idle, queues, t, th);
      threads := threads[t := th];
    }

    /** thread_refresh_priority: a ready thread whose priority changes moves to the back of its new
        queue. */
    method RefreshPriority(t: Tid)
      requires Shape() && t in threads && t != idle
      modifies `threads, `queues
      ensures Shape()
      ensures threads == old(threads)[t := PriorityRefreshed(old(threads)[t])]
      ensures queues == Requeued(old(queues), t, old(threads)[t], threads[t].priority)
    {
      var was := threads[t];
      var th := was.(priority := Priority(was.cpu, was.nice));
      if th.status.Ready? && th.priority != was.priority {
        DequeueOk(threads, idle, queues, t, was.(status := Blocked));
        ghost var blocked := threads[t := was.(status := Blocked)];
        queues := queues[was.priority := Without(queues[was.priority], t)];
        EnqueueOk(blocked, idle, queues, t, th);
        assert blocked[t := th] == threads[t := th];
        queues := queues[th.priority := queues[th.priority] + [t]];
      } else {
        SameQueueOk(threads, idle, queues, t, th);
      }
      threads := threads[t := th];
    }

    /** The once-a-second refresh of every thread but idle. */
    method RefreshAllCpu()
      requires Shape()
      modifies `threads
      ensures Shape() && CpuDone(old(threads), threads, idle, load, all)
    {
      var i := 0;
      while i < |all|
        invariant 0 <= i <= |all| && Shape() && CpuDone(old(threads), threads, idle, load, all[..i])
      {
        var t := all[i];
        assert all[..i + 1] == all[..i] + [t] && t in all && t !in all[..i];
        CpuStep(old(threads), threads, idle, load, all[..i], t);
        if t != idle {
          RefreshRecentCpu(t);
        }
        i := i + 1;
      }
      assert all[..|all|] == all;
    }

    /** The refresh of all priorities, every fourth tick. */
    method RefreshAllPriorities()
      requires Shape()
      modifies `threads, `queues
      ensures Shape() && PriorityDone(old(threads), threads, idle, all)
    {
      var i := 0;
      while i < |all|
        invariant 0 <= i <= |all| && Shape() && PriorityDone(old(threads), threads, idle, all[..i])
      {
        var t := all[i];
        assert all[..i + 1] == all[..i] + [t] && t in all && t !in all[..i];
        PriorityStep(old(threads), threads, idle, all[..i], t);
        if t != idle {
          RefreshPriority(t);
        }
        i := i + 1;
      }
      assert all[..|all|] == all;
    }

    /** thread_unblock. */
    method Unblock(t: Tid)
      requires Shape() && t in threads && t != idle && threads[t].status.Blocked?
      modifies `threads, `queues
      ensures Shape() && threads == old(threads)[t := old(threads)[t].(status := Ready)]
      ensures queues == Enqueued(old(queues), t, threads[t].priority)
    {
      var th := threads[t].(status := Ready);
      EnqueueOk(threads, idle, queues, t, th);
      queues := queues[th.priority := queues[th.priority] + [t]];
      threads := threads[t := th];
    }

    /** wake_threads on thread t. */
    method Wake(t: Tid)
      requires Shape() && t in threads
      modifies `threads, `queues
      ensures Shape() && threads == old(threads)[t := Woken(old(threads)[t])]
    {
      if threads[t].status.Blocked? && threads[t].sleep > 0 {
        var th := threads[t].(sleep := threads[t].sleep - 1);
        SameQueueOk(threads, idle, queues, t, th);
        threads := threads[t := th];
        if th.sleep == 0 {
          Unblock(t);
        }
      }
    }

    method WakeThreads()
      requires Shape()
      modifies `threads, `queues
      ensures Shape() && threads == map t | t in old(threads) :: Woken(old(threads)[t])
    {
      var i := 0;
      while i < |all|
        invariant 0 <= i <= |all| && Shape() && threads.Keys == old(threads).Keys
        invariant forall t {:trigger threads[t]} :: t in threads ==>
                    threads[t] == if t in all[..i] then Woken(old(threads)[t]) else old(threads)[t]
      {
        assert all[..i + 1] == all[..i] + [all[i]] && all[i] in all && all[i] !in all[..i];
        Wake(all[i]);
        i := i + 1;
      }
      assert all[..|all|] == all;
    }

    /** The running thread is charged one tick. */
    method Charge()
      requires Shape()
      modifies `threads
      ensures Shape()
      ensures threads == old(threads)[current := old(threads)[current].(cpu := old(threads)[current].cpu + 16384)]
    {
      var th := threads[current].(cpu := threads[current].cpu + 16384);
      SameQueueOk(threads, idle, queues, current, th);
      threads := threads[current := th];
    }

    /** The part of thread_tick that happens on every tick. */
    method WakeAndCharge()
      requires Valid()
      modifies `threads, `queues
      ensures Shape() && BoundsOk(threads, idle, n, ticks % 100 + 1) && ChargedFrom(old(threads), threads, current)
      ensures ActiveIn(threads, idle, all) == StirringIn(old(threads), idle, all)
    {
      WakeThreads();
      ghost var woken := threads;
      Charge();
      ChargedBounds(old(threads), woken, threads, idle, current, n, ticks % 100);
      StirringWake(old(threads), woken, threads, idle, all);
    }

    /** The part of thread_tick that happens once a second. */
    method EachSecond(ghost k: nat)
      requires Shape() && BoundsOk(threads, idle, n, k) && k == if ticks % 100 == 0 then 100 else ticks % 100
      requires ticks % 100 == 0 ==> ActiveIn(threads, idle, all) <= n
      modifies `threads, `load
      ensures Valid() && Seconded(old(threads), threads, idle, all, ticks, load)
      ensures load == if ticks % 100 == 0 then NextLoad(old(load), ActiveIn(old(threads), idle, all)) else old(load)
    {
      if ticks % 100 == 0 {
        SetLoadAvg();
        RefreshAllCpu();
        RefreshedBounds(old(threads), threads, idle, load, all, n);
      }
    }

    /** The part of thread_tick that happens on every fourth tick. */
    method EachFourth()
      requires Valid()
      modifies `threads, `queues
      ensures Valid() && Fourthed(old(threads), threads, idle, all, ticks)
    {
      if ticks % 4 == 0 {
        RefreshAllPriorities();
        PrioritiesKeepBounds(old(threads), threads, idle, all, n, ticks % 100);
      }
    }

    /** thread_tick under MLFQ: the running thread is charged; each second the load average and all
        recent_cpu values are refreshed, each fourth tick all priorities. Every bound survives, if at
        most n threads are active when the load average is taken. */
    method Tick()
      requires Valid()
      requires (ticks + 1) % 100 == 0 ==> StirringIn(threads, idle, all) <= n
      modifies `threads, `queues, `load, `ticks
      ensures Valid() && ticks == old(ticks) + 1 && Ticked(old(threads), threads, current, idle, ticks, load)
      ensures load == if ticks % 100 == 0 then NextLoad(old(load), StirringIn(old(threads), idle, all)) else old(load)
    {
      WakeAndCharge();
      ghost var charged := threads;
      NextMod(ticks);
      ticks := ticks + 1;
      EachSecond(if ticks % 100 == 0 then 100 else ticks % 100);
      ghost var seconded := threads;
      EachFourth();
      TickedIs(old(threads), charged, seconded, threads, current, idle, all, ticks, load);
    }

    /** next_thread_to_run: scans the queues from priority 63 down. */
    method NextThreadToRun() returns (next: Tid)
      requires Structure()
      modifies `queues
      ensures IsNext(threads, idle, old(queues), next) && queues == Taken(threads, idle, old(queues), next)
    {
      var i := 0;
      while i <= 63
        invariant 0 <= i <= 64
        invariant forall q :: 63 - i < q < 64 ==> queues[q] == []
      {
        if queues[63 - i] != [] {
          PickedIsNext(threads, idle, queues, 63 - i);
          next := queues[63 - i][0];
          queues := queues[63 - i := queues[63 - i][1..]];
          return;
        }
        i := i + 1;
      }
      NoneQueued(threads, idle, queues);
      next := idle;
    }

    /** schedule: the processor goes to a highest-priority ready thread, the one that has waited
        longest at that priority, or to idle when none is ready. */
    method Schedule()
      requires Parked()
      modifies `threads, `queues, `current
      ensures Valid() && Switched(old(threads), idle, old(queues), threads, queues, current)
      ensures TopRuns(threads, idle, current)
    {
      var next := NextThreadToRun();
      var th := threads[next].(status := Running);
      if next == idle {
        SameQueueOk(threads, idle, queues, next, th);
      } else {
        HeadOff(old(queues)[threads[next].priority]);
        DequeueOk(threads, idle, old(queues), next, th);
      }
      threads := threads[next := th];
      current := next;
      SwitchedIsTop(old(threads), idle, old(queues), threads, queues, current);
    }

    /** thread_block, with the ticks to sleep, if any. */
    method Block(sleep: nat)
      requires Valid() && (current == idle ==> sleep == 0)
      modifies `threads, `queues, `current
      ensures Valid() && TopRuns(threads, idle, current)
      ensures var th := old(threads)[old(current)].(status := Blocked, sleep := sleep);
              Switched(old(threads)[old(current) := th], idle, old(queues), threads, queues, current)
    {
      var th := threads[current].(status := Blocked, sleep := sleep);
      SameQueueOk(threads, idle, queues, current, th);
      threads := threads[current := th];
      Schedule();
    }

    /** thread_yield. */
    method Yield()
      requires Valid()
      modifies `threads, `queues, `current
      ensures Valid() && TopRuns(threads, idle, current)
      ensures Yielded(old(threads), idle, old(queues), old(current), threads, queues, current)
    {
      var th := threads[current].(status := Ready);
      if current != idle {
        EnqueueOk(threads, idle, queues, current, th);
        queues := queues[th.priority := queues[th.priority] + [current]];
      } else {
        SameQueueOk(threads, idle, queues, current, th);
      }
      threads := threads[current := th];
      Schedule();
    }

    /** thread_exit. */
    method Exit()
      requires Valid() && current != idle
      modifies `threads, `queues, `current, `all
      ensures Valid() && TopRuns(threads, idle, current) && all == Without(old(all), old(current))
      ensures Switched(old(threads) - {old(current)}, idle, old(queues), threads, queues, current)
    {
      WithoutKeeps(all, current);
      all := Without(all, current);
      threads := threads - {current};
      assert forall p, t :: OnQueue(threads, idle, p, t) <==> OnQueue(old(threads), idle, p, t);
      Schedule();
    }

    /** The timer interrupt: thread_tick, then the yield it asks for on return. */
    method TimerInterrupt() returns (ghost ticked: map<Tid, Thread>, ghost requeued: seq<seq<Tid>>)
      requires Valid()
      requires (ticks + 1) % 100 == 0 ==> StirringIn(threads, idle, all) <= n
      modifies `threads, `queues, `load, `ticks, `current
      ensures Valid() && ticks == old(ticks) + 1 && TopRuns(threads, idle, current)
      ensures Ticked(old(threads), ticked, old(current), idle, ticks, load)
      ensures Yielded(ticked, idle, requeued, old(current), threads, queues, current)
    {
      Tick();
      ticked, requeued := threads, queues;
      Yield();
    }

    /** init_thread and thread_unblock on the new thread. */
    method Admit(t: Tid, priority: nat)
      requires Valid() && t !in threads && priority <= 63
      modifies `threads, `queues, `all
      ensures Valid() && threads == old(threads)[t := Thread(Ready, 0, 0, priority, 0)]
      ensures all == old(all) + [t] && queues == Enqueued(old(queues), t, priority)
    {
      var th := Thread(Ready, 0, 0, priority, 0);
      EnqueueOk(threads, idle, queues, t, th);
      AppendDistinct(all, t);
      all := all + [t];
      queues := queues[priority := queues[priority] + [t]];
      threads := threads[t := th];
    }

    /** thread_create: the creator yields to a more urgent thread, so that none is kept waiting. */
    method Create(t: Tid, priority: nat)
      requires Valid() && t !in threads && priority <= 63
      modifies `threads, `queues, `all, `current
      ensures Valid() && all == old(all) + [t]
      ensures var ts, qs := old(threads)[t := Thread(Ready, 0, 0, priority, 0)], Enqueued(old(queues), t, priority);
              if priority > old(threads)[old(current)].priority
              then Yielded(ts, idle, qs, old(current), threads, queues, current)
              else threads == ts && queues == qs && current == old(current)
      ensures old(TopRuns(threads, idle, current) && current != idle) ==> TopRuns(threads, idle, current)
    {
      Admit(t, priority);
      if threads[t].priority > threads[current].priority {
        Yield();
      }
    }

    /** The refresh in thread_set_nice. */
    method Renice(nice: int)
      requires Valid() && current != idle && -20 <= nice <= 20
      modifies `threads, `queues
      ensures Valid() && queues == old(queues)
      ensures threads == old(threads)[current := Reniced(load, old(threads)[current], nice)]
    {
      var th := threads[current].(nice := nice);
      SameQueueOk(threads, idle, queues, current, th);
      threads := threads[current := th];
      CpuBound(load, th.cpu, nice, n, ticks % 100);
      RefreshRecentCpu(current);
      RefreshPriority(current);
    }

    /** The scan in thread_set_nice, which numbers the queues from the top. */
    method ScanQueues() returns (max: nat, ghost h: int)
      requires Structure()
      ensures IsHighest(queues, h) && max == if h >= 0 then 63 - h else 0
    {
      max, h := 0, -1;
      var i := 0;
      while i <= 63
        invariant 0 <= i <= 64 && max == 0 && h == -1
        invariant forall q :: 63 - i < q < 64 ==> queues[q] == []
      {
        if queues[63 - i] != [] {
          return i, 63 - i;
        }
        i := i + 1;
      }
    }

    /** thread_set_nice.  It should leave a thread of the highest priority running and does so unless
        the new priority falls in the range that the mirrored scan misses. */
    method SetNice(nice: int) returns (ghost h: int)
      requires Valid() && current != idle && -20 <= nice <= 20
      modifies `threads, `queues, `current
      ensures Valid() && IsHighest(old(queues), h)
      ensures var ts := old(threads)[old(current) := Reniced(load, old(threads)[old(current)], nice)];
              if NiceYields(ts[old(current)].priority, h)
              then Yielded(ts, idle, old(queues), old(current), threads, queues, current)
              else threads == ts && queues == old(queues) && current == old(current)
      ensures TopRuns(threads, idle, current) <==>
              !NiceMisses(Reniced(load, old(threads)[old(current)], nice).priority, h)
    {
      Renice(nice);
      var max;
      max, h := ScanQueues();
      TopIffHighest(threads, idle, queues, current, h);
      if threads[current].priority < max {
        Yield();
      }
    }
  }

  lemma HeadOff(l: seq<nat>)
    requires Distinct(l) && l != []
    ensures Without(l, l[0]) == l[1..]
  {
    PoppedKeeps(l);
    WithoutAbsent(l[1..], l[0]);
  }
}

/** Priority donation (pintos/src/threads/thread.c, pintos/src/threads/synch.c): effective
    priorities are the least assignment above the threads' own priorities in which every lock
    holder is at least as urgent as each thread waiting on one of its locks. */
module Donation {

  type Tid = nat

  /** A lock on the kernel's lock_list: its holder and the threads waiting on its semaphore. */
  datatype Lock = Lock(id: nat, holder: Tid, waiters: seq<Tid>)

  type Priorities = map<Tid, int>

  // ---------------------------------------------------------------- least donation

  ghost predicate Covers(prio: Priorities, locks: seq<Lock>) {
    forall i :: 0 <= i < |locks| ==> locks[i].holder in prio && forall w :: w in locks[i].waiters ==> w in prio
  }

  /** Every waiter of lock l has donated to its holder. */
  ghost predicate Donated(prio: Priorities, l: Lock)
    requires l.holder in prio && forall w :: w in l.waiters ==> w in prio
  {
    forall w :: w in l.waiters ==> prio[w] <= prio[l.holder]
  }

  ghost predicate Closed(prio: Priorities, locks: seq<Lock>) {
    Covers(prio, locks) && forall i :: 0 <= i < |locks| ==> Donated(prio, locks[i])
  }

  ghost predicate AtLeast(q: Priorities, p: Priorities) {
    q.Keys == p.Keys && forall t :: t in p ==> p[t] <= q[t]
  }

  /** prio is the least closed assignment above base. */
  ghost predicate LeastDonation(prio: Priorities, base: Priorities, locks: seq<Lock>) {
    && AtLeast(prio, base) && Closed(prio, locks)
    && forall q :: AtLeast(q, base) && Closed(q, locks) ==> AtLeast(q, prio)
  }

  /** Waiter k is the first of the most urgent ones. */
  ghost predicate FirstMost(waiters: seq<Tid>, prio: Priorities, k: nat) {
    && (forall w :: w in waiters ==> w in prio)
    && k < |waiters|
    && (forall j :: 0 <= j < |waiters| ==> prio[waiters[j]] <= prio[waiters[k]])
    && (forall j :: 0 <= j < k ==> prio[waiters[j]] < prio[waiters[k]])
  }

  /** The first of the most urgent waiters, as `list_max` finds it. */
  method MaxWaiter(waiters: seq<Tid>, prio: Priorities) returns (k: nat)
    requires waiters != [] && forall w :: w in waiters ==> w in prio
    ensures FirstMost(waiters, prio, k)
  {
    k := 0;
    var i := 1;
    while i < |waiters|
      invariant k < i <= |waiters|
      invariant forall j :: 0 <= j < i ==> prio[waiters[j]] <= prio[waiters[k]]
      invariant forall j :: 0 <= j < k ==> prio[waiters[j]] < prio[waiters[k]]
    {
      if prio[waiters[k]] < prio[waiters[i]] {
        k := i;
      }
      i := i + 1;
    }
  }

  /** How far the holders are below the bound: every donation shrinks it. */
  ghost function Gap(locks: seq<Lock>, prio: Priorities, bound: int): nat
    requires Covers(prio, locks) && forall t :: t in prio ==> prio[t] <= bound
  {
    if locks == [] then 0
    else bound - prio[locks[0].holder] + Gap(locks[1..], prio, bound)
  }

  lemma {:induction false} RaiseShrinksGap(locks: seq<Lock>, prio: Priorities, raised: Priorities, bound: int, h: Tid)
    requires Covers(prio, locks) && (forall t :: t in prio ==> prio[t] <= bound)
    requires h in prio && h in raised && prio[h] < raised[h] <= bound && raised == prio[h := raised[h]]
    ensures Covers(raised, locks) && (forall t :: t in raised ==> raised[t] <= bound)
    ensures Gap(locks, raised, bound) <= Gap(locks, prio, bound)
    ensures (exists i :: 0 <= i < |locks| && locks[i].holder == h) ==>
              Gap(locks, raised, bound) < Gap(locks, prio, bound)
  {
    if locks != [] {
      RaiseShrinksGap(locks[1..], prio, raised, bound, h);
    }
  }

  // ---------------------------------------------------------------- what least donation means

  /** u waits, through n locks, for t. */
  ghost predicate WaitsFor(locks: seq<Lock>, u: Tid, t: Tid, n: nat)
    decreases n
  {
    if n == 0 then u == t
    else exists i :: 0 <= i < |locks| && u in locks[i].waiters && WaitsFor(locks, locks[i].holder, t, n - 1)
  }

  lemma {:induction false} DonorBound(prio: Priorities, locks: seq<Lock>, u: Tid, t: Tid, n: nat)
    requires Closed(prio, locks) && u in prio && WaitsFor(locks, u, t, n)
    ensures t in prio && prio[u] <= prio[t]
    decreases n
  {
    if n > 0 {
      var i :| 0 <= i < |locks| && u in locks[i].waiters && WaitsFor(locks, locks[i].holder, t, n - 1);
      assert Donated(prio, locks[i]);
      DonorBound(prio, locks, locks[i].holder, t, n - 1);
    }
  }

  lemma {:induction false} WaitsForStep(locks: seq<Lock>, u: Tid, t: Tid, n: nat, k: nat)
    requires WaitsFor(locks, u, t, n) && k < |locks| && t in locks[k].waiters
    ensures WaitsFor(locks, u, locks[k].holder, n + 1)
    decreases n
  {
    if n == 0 {
      assert WaitsFor(locks, locks[k].holder, locks[k].holder, 0);
    } else {
      var i :| 0 <= i < |locks| && u in locks[i].waiters && WaitsFor(locks, locks[i].holder, t, n - 1);
      WaitsForStep(locks, locks[i].holder, t, n - 1, k);
    }
  }

  /** The threads whose own priority counts for t. */
  ghost function Donors(base: Priorities, locks: seq<Lock>, t: Tid): set<Tid> {
    set u | u in base && exists n: nat :: WaitsFor(locks, u, t, n)
  }

  ghost predicate IsMaxOver(m: int, base: Priorities, donors: set<Tid>) {
    (exists u :: u in donors && u in base && base[u] == m) && forall u :: u in donors && u in base ==> base[u] <= m
  }

  ghost predicate Attained(prio: Priorities, base: Priorities, locks: seq<Lock>, t: Tid)
    requires t in prio
  {
    exists u :: u in Donors(base, locks, t) && u in base && base[u] == prio[t]
  }

  /** Lowering every priority that no donor accounts for keeps the assignment closed. */
  lemma UnattainedLowered(prio: Priorities, base: Priorities, locks: seq<Lock>, q: Priorities)
    requires AtLeast(prio, base) && Closed(prio, locks) && q.Keys == prio.Keys
    requires forall u :: u in prio ==> q[u] == if Attained(prio, base, locks, u) then prio[u] else prio[u] - 1
    ensures AtLeast(q, base) && Closed(q, locks)
  {
    forall u | u in base
      ensures base[u] <= q[u]
    {
      OwnDonor(base, locks, u);
    }
    forall i, w | 0 <= i < |locks| && w in locks[i].waiters
      ensures q[w] <= q[locks[i].holder]
    {
      assert Donated(prio, locks[i]);
      if prio[w] == prio[locks[i].holder] && Attained(prio, base, locks, w) {
        WaiterAttains(prio, base, locks, i, w);
      }
    }
  }

  lemma OwnDonor(base: Priorities, locks: seq<Lock>, u: Tid)
    requires u in base
    ensures u in Donors(base, locks, u)
  {
    assert WaitsFor(locks, u, u, 0);
  }

  lemma WaiterAttains(prio: Priorities, base: Priorities, locks: seq<Lock>, i: nat, w: Tid)
    requires Covers(prio, locks) && i < |locks| && w in locks[i].waiters && Attained(prio, base, locks, w)
    requires prio[w] == prio[locks[i].holder]
    ensures Attained(prio, base, locks, locks[i].holder)
  {
    var u :| u in Donors(base, locks, w) && u in base && base[u] == prio[w];
    var n: nat :| WaitsFor(locks, u, w, n);
    WaitsForStep(locks, u, w, n, i);
    assert u in Donors(base, locks, locks[i].holder);
  }

  /** Under least donation every thread runs at the largest own priority among itself and all
      threads that transitively wait on it. */
  lemma LeastDonationIsMax(prio: Priorities, base: Priorities, locks: seq<Lock>, t: Tid)
    requires LeastDonation(prio, base, locks) && t in prio
    ensures IsMaxOver(prio[t], base, Donors(base, locks, t))
  {
    forall u | u in Donors(base, locks, t)
      ensures base[u] <= prio[t]
    {
      var n: nat :| WaitsFor(locks, u, t, n);
      DonorBound(prio, locks, u, t, n);
    }
    if !Attained(prio, base, locks, t) {
      var q := map u | u in prio :: if Attained(prio, base, locks, u) then prio[u] else prio[u] - 1;
      UnattainedLowered(prio, base, locks, q);
      assert false;
    }
  }

  /** In particular a thread's priority is its own or that of a thread waiting on one of its locks. */
  lemma LeastDonationIsLocal(prio: Priorities, base: Priorities, locks: seq<Lock>, t: Tid)
    requires LeastDonation(prio, base, locks) && t in prio
    ensures prio[t] == base[t] ||
            exists i, w :: 0 <= i < |locks| && locks[i].holder == t && w in locks[i].waiters && prio[w] == prio[t]
  {
    if && prio[t] != base[t]
       && !(exists i, w ::
              0 <= i < |locks| && locks[i].holder == t && w in locks[i].waiters && prio[w] == prio[t])
    {
      LowerStaysClosed(prio, base, locks, t);
      assert false;
    }
  }

  lemma LowerStaysClosed(prio: Priorities, base: Priorities, locks: seq<Lock>, t: Tid)
    requires AtLeast(prio, base) && Closed(prio, locks) && t in prio && prio[t] != base[t]
    requires forall i, w :: 0 <= i < |locks| && locks[i].holder == t && w in locks[i].waiters ==> prio[w] != prio[t]
    ensures AtLeast(prio[t := prio[t] - 1], base) && Closed(prio[t := prio[t] - 1], locks)
  {
    var q := prio[t := prio[t] - 1];
    forall i | 0 <= i < |locks|
      ensures Donated(q, locks[i])
    {
      assert Donated(prio, locks[i]);
    }
  }

  // ---------------------------------------------------------------- what the lock operations do to it

  /** No thread waits twice. */
  ghost predicate WaitsOnce(locks: seq<Lock>) {
    forall i, a, j, b :: 0 <= i < |locks| && 0 <= j < |locks| ==>
      0 <= a < |locks[i].waiters| && 0 <= b < |locks[j].waiters| && locks[i].waiters[a] == locks[j].waiters[b] ==>
      i == j && a == b
  }

  ghost predicate Waiting(locks: seq<Lock>, t: Tid) {
    exists i :: 0 <= i < |locks| && t in locks[i].waiters
  }

  /** A thread that waits for nothing can be raised without disturbing anyone. */
  lemma RaiseIdle(q: Priorities, locks: seq<Lock>, cur: Tid, v: int)
    requires Closed(q, locks) && cur in q && !Waiting(locks, cur) && q[cur] <= v
    ensures Closed(q[cur := v], locks)
  {
    var r := q[cur := v];
    forall i | 0 <= i < |locks|
      ensures Donated(r, locks[i])
    {
      assert Donated(q, locks[i]);
      assert cur !in locks[i].waiters;
    }
  }

  ghost function Max(a: int, b: int): int { if a < b then b else a }

  /** `lock_acquire` on a held lock: raise the holder, settle, then join the waiters. */
  lemma AcquireKeepsLeast(p: Priorities, base: Priorities, locks: seq<Lock>, k: nat, cur: Tid, p2: Priorities)
    requires LeastDonation(p, base, locks) && k < |locks| && cur in p
    requires var h := locks[k].holder; LeastDonation(p2, p[h := Max(p[h], p[cur])], locks)
    ensures LeastDonation(p2, base, locks[k := locks[k].(waiters := locks[k].waiters + [cur])])
  {
    var h := locks[k].holder;
    var p1, joined := p[h := Max(p[h], p[cur])], locks[k := locks[k].(waiters := locks[k].waiters + [cur])];
    NewWaiterBelowHolder(p, locks, h, cur, p1, p2);
    assert Closed(p2, joined) by {
      forall i | 0 <= i < |joined|
        ensures Donated(p2, joined[i])
      {
        assert Donated(p2, locks[i]);
      }
    }
    forall q | AtLeast(q, base) && Closed(q, joined)
      ensures AtLeast(q, p2)
    {
      ClosedWithout(q, locks, k, cur);
      assert AtLeast(q, p);
      assert Donated(q, joined[k]) && cur in joined[k].waiters;
      assert AtLeast(q, p1);
    }
  }

  lemma ClosedWithout(q: Priorities, locks: seq<Lock>, k: nat, cur: Tid)
    requires k < |locks| && Closed(q, locks[k := locks[k].(waiters := locks[k].waiters + [cur])])
    ensures Closed(q, locks)
  {
    var joined := locks[k := locks[k].(waiters := locks[k].waiters + [cur])];
    forall i | 0 <= i < |locks|
      ensures locks[i].holder in q && (forall w :: w in locks[i].waiters ==> w in q && q[w] <= q[locks[i].holder])
    {
      assert Donated(q, joined[i]);
      assert forall w :: w in locks[i].waiters ==> w in joined[i].waiters;
    }
  }

  /** Settling after raising the holder h cannot lift the new waiter above h, not even when h waits,
      directly or not, on a lock of the new waiter. */
  lemma NewWaiterBelowHolder(p: Priorities, locks: seq<Lock>, h: Tid, cur: Tid, p1: Priorities, p2: Priorities)
    requires Closed(p, locks) && h in p && cur in p && p1 == p[h := Max(p[h], p[cur])]
    requires LeastDonation(p2, p1, locks)
    ensures p2[cur] <= p2[h]
  {
    var c := p2[h];
    var q := map t | t in p :: if p2[t] < Max(p[t], c) then p2[t] else Max(p[t], c);
    assert q.Keys == p.Keys == p1.Keys == p2.Keys;
    assert AtLeast(q, p1);
    forall i | 0 <= i < |locks|
      ensures Donated(q, locks[i])
    {
      assert Donated(p, locks[i]) && Donated(p2, locks[i]);
    }
    assert AtLeast(q, p2);
  }

  /** `thread_set_priority` by a thread that waits for nothing. */
  lemma SetPriorityKeepsLeast(p: Priorities, base: Priorities, locks: seq<Lock>, cur: Tid, v: int, p2: Priorities)
    requires LeastDonation(p, base, locks) && cur in p && !Waiting(locks, cur)
    requires LeastDonation(p2, p[cur := v], locks)
    ensures LeastDonation(p2, base[cur := v], locks)
  {
    var p1, base' := p[cur := v], base[cur := v];
    assert p1.Keys == base'.Keys;
    forall q | AtLeast(q, base') && Closed(q, locks)
      ensures AtLeast(q, p2)
    {
      var raised := q[cur := Max(q[cur], base[cur])];
      RaiseIdle(q, locks, cur, Max(q[cur], base[cur]));
      assert AtLeast(raised, base);
      assert AtLeast(raised, p);
      assert AtLeast(q, p1);
    }
  }

  /** The locks after cur hands lock k to the waiter at index a, or drops it if nobody waits. */
  ghost function HandedOver(locks: seq<Lock>, k: nat, a: nat): seq<Lock>
    requires k < |locks|
  {
    var l := locks[k];
    if a < |l.waiters|
    then locks[k := l.(holder := l.waiters[a], waiters := l.waiters[..a] + l.waiters[a + 1..])]
    else locks[..k] + locks[k + 1..]
  }

  /** m is what cur is worth through the locks it still holds. */
  ghost predicate OwnWorth(p: Priorities, base: Priorities, locks: seq<Lock>, k: nat, cur: Tid, m: int)
    requires Covers(p, locks) && cur in base
  {
    && base[cur] <= m
    && (forall i, w :: 0 <= i < |locks| && i != k && locks[i].holder == cur && w in locks[i].waiters ==> p[w] <= m)
    && (m == base[cur] ||
        exists i, w :: 0 <= i < |locks| && i != k && locks[i].holder == cur && w in locks[i].waiters && p[w] == m)
  }

  /** `lock_release`: the priority cur is left with, and the hand-over to the most urgent waiter. */
  lemma ReleaseKeepsLeast(p: Priorities, base: Priorities, locks: seq<Lock>, k: nat, a: nat, cur: Tid, m: int)
    requires LeastDonation(p, base, locks) && k < |locks| && cur == locks[k].holder && !Waiting(locks, cur)
    requires OwnWorth(p, base, locks, k, cur, m)
    requires locks[k].waiters == [] || (a < |locks[k].waiters| &&
               forall j :: 0 <= j < |locks[k].waiters| ==> p[locks[k].waiters[j]] <= p[locks[k].waiters[a]])
    ensures LeastDonation(p[cur := m], base, HandedOver(locks, k, a))
  {
    ReleaseCloses(p, base, locks, k, a, cur, m);
    var p', after := p[cur := m], HandedOver(locks, k, a);
    assert AtLeast(p', base);
    forall q | AtLeast(q, base) && Closed(q, after)
      ensures AtLeast(q, p')
    {
      ReleaseIsLeast(p, base, locks, k, a, cur, m, q);
    }
  }

  /** Where each lock of the old list is in the new one. */
  lemma HandedOverAt(locks: seq<Lock>, k: nat, a: nat, i: nat)
    requires k < |locks| && i < |locks| && i != k
    ensures var after := HandedOver(locks, k, a);
            var j := if a < |locks[k].waiters| || i < k then i else i - 1;
            0 <= j < |after| && after[j] == locks[i]
  {
  }

  lemma ReleaseCloses(p: Priorities, base: Priorities, locks: seq<Lock>, k: nat, a: nat, cur: Tid, m: int)
    requires LeastDonation(p, base, locks) && k < |locks| && cur == locks[k].holder && !Waiting(locks, cur)
    requires OwnWorth(p, base, locks, k, cur, m)
    requires locks[k].waiters == [] || (a < |locks[k].waiters| &&
               forall j :: 0 <= j < |locks[k].waiters| ==> p[locks[k].waiters[j]] <= p[locks[k].waiters[a]])
    ensures Closed(p[cur := m], HandedOver(locks, k, a))
  {
    var p', after, l := p[cur := m], HandedOver(locks, k, a), locks[k];
    forall j | 0 <= j < |after|
      ensures after[j].holder in p' && (forall w :: w in after[j].waiters ==> w in p' && p'[w] <= p'[after[j].holder])
    {
      if a < |l.waiters| && j == k {
        assert forall w :: w in after[k].waiters ==> w in l.waiters;
        assert cur !in l.waiters;
      } else {
        var i := if a < |l.waiters| || j < k then j else j + 1;
        HandedOverAt(locks, k, a, i);
        assert after[j] == locks[i] && Donated(p, locks[i]);
        assert cur !in locks[i].waiters;
      }
    }
  }

  /** Any assignment closed after the release becomes closed before it by lifting cur alone. */
  lemma ReleaseUndone(locks: seq<Lock>, k: nat, a: nat, cur: Tid, q: Priorities) returns (v: int)
    requires k < |locks| && cur == locks[k].holder && !Waiting(locks, cur) && cur in q
    requires locks[k].waiters == [] || a < |locks[k].waiters|
    requires Closed(q, HandedOver(locks, k, a))
    ensures v >= q[cur] && Closed(q[cur := v], locks)
  {
    var l, after := locks[k], HandedOver(locks, k, a);
    v := if l.waiters == [] then q[cur] else Max(q[cur], q[after[k].holder]);
    var r := q[cur := v];
    forall i | 0 <= i < |locks|
      ensures locks[i].holder in r && (forall w :: w in locks[i].waiters ==> w in r && r[w] <= r[locks[i].holder])
    {
      assert cur !in locks[i].waiters;
      if i != k {
        HandedOverAt(locks, k, a, i);
        assert Donated(q, after[if a < |l.waiters| || i < k then i else i - 1]);
      } else if l.waiters != [] {
        assert Donated(q, after[k]);
        forall w | w in l.waiters
          ensures w in q && q[w] <= q[after[k].holder]
        {
          assert w == l.waiters[a] || w in after[k].waiters;
        }
      }
    }
  }

  lemma ReleaseIsLeast(p: Priorities, base: Priorities, locks: seq<Lock>, k: nat, a: nat, cur: Tid, m: int,
                       q: Priorities)
    requires LeastDonation(p, base, locks) && k < |locks| && cur == locks[k].holder && !Waiting(locks, cur)
    requires OwnWorth(p, base, locks, k, cur, m)
    requires locks[k].waiters == [] || a < |locks[k].waiters|
    requires AtLeast(q, base) && Closed(q, HandedOver(locks, k, a))
    ensures AtLeast(q, p[cur := m])
  {
    var v := ReleaseUndone(locks, k, a, cur, q);
    assert AtLeast(q[cur := v], base);
    assert AtLeast(q[cur := v], p);
    if m != base[cur] {
      var i, w :| 0 <= i < |locks| && i != k && locks[i].holder == cur && w in locks[i].waiters && p[w] == m;
      HandedOverAt(locks, k, a, i);
      var j := if a < |locks[k].waiters| || i < k then i else i - 1;
      assert Donated(q, HandedOver(locks, k, a)[j]);
      assert w != cur;
    }
  }

  lemma CreateKeepsLeast(p: Priorities, base: Priorities, locks: seq<Lock>, t: Tid, v: int)
    requires LeastDonation(p, base, locks) && t !in p
    ensures LeastDonation(p[t := v], base[t := v], locks)
  {
    var p', base' := p[t := v], base[t := v];
    assert Closed(p', locks) by {
      forall i | 0 <= i < |locks|
        ensures Donated(p', locks[i])
      {
        assert Donated(p, locks[i]);
      }
    }
    forall q | AtLeast(q, base') && Closed(q, locks)
      ensures AtLeast(q, p')
    {
      var r := q - {t};
      forall i | 0 <= i < |locks|
        ensures locks[i].holder in r && (forall w :: w in locks[i].waiters ==> w in r && r[w] <= r[locks[i].holder])
      {
        assert Donated(q, locks[i]) && Donated(p, locks[i]);
      }
      assert AtLeast(r, base);
      assert AtLeast(r, p);
    }
  }

  lemma NewLockKeepsLeast(p: Priorities, base: Priorities, locks: seq<Lock>, l: Lock)
    requires LeastDonation(p, base, locks) && l.holder in p && l.waiters == []
    ensures LeastDonation(p, base, locks + [l])
  {
    var more := locks + [l];
    forall i | 0 <= i < |more|
      ensures more[i].holder in p && (forall w :: w in more[i].waiters ==> w in p && p[w] <= p[more[i].holder])
    {
      if i < |locks| {
        assert Donated(p, locks[i]);
      }
    }
    forall q | AtLeast(q, base) && Closed(q, more)
      ensures AtLeast(q, p)
    {
      forall i | 0 <= i < |locks|
        ensures locks[i].holder in q && (forall w :: w in locks[i].waiters ==> w in q && q[w] <= q[locks[i].holder])
      {
        assert Donated(q, more[i]);
      }
    }
  }

  lemma JoinWaitsOnce(locks: seq<Lock>, k: nat, cur: Tid)
    requires WaitsOnce(locks) && k < |locks| && !Waiting(locks, cur)
    ensures WaitsOnce(locks[k := locks[k].(waiters := locks[k].waiters + [cur])])
  {
    assert forall i :: 0 <= i < |locks| ==> cur !in locks[i].waiters;
  }

  ghost predicate DistinctIds(locks: seq<Lock>) {
    forall i, j :: 0 <= i < j < |locks| ==> locks[i].id != locks[j].id
  }

  lemma HandOverKeeps(locks: seq<Lock>, k: nat, a: nat)
    requires WaitsOnce(locks) && DistinctIds(locks) && k < |locks|
    ensures WaitsOnce(HandedOver(locks, k, a)) && DistinctIds(HandedOver(locks, k, a))
  {
    var l := locks[k];
    if a < |l.waiters| {
      var l' := l.(holder := l.waiters[a], waiters := l.waiters[..a] + l.waiters[a + 1..]);
      assert HandedOver(locks, k, a) == locks[k := l'];
      FewerWaiters(locks, k, l', a);
    } else {
      FewerLocks(locks, HandedOver(locks, k, a), k);
    }
  }

  lemma FewerWaiters(locks: seq<Lock>, k: nat, l: Lock, a: nat)
    requires WaitsOnce(locks) && k < |locks| && |l.waiters| + 1 == |locks[k].waiters|
    requires forall b :: 0 <= b < |l.waiters| ==> l.waiters[b] == locks[k].waiters[if b < a then b else b + 1]
    ensures WaitsOnce(locks[k := l])
  {
  }

  lemma FewerLocks(locks: seq<Lock>, after: seq<Lock>, k: nat)
    requires WaitsOnce(locks) && DistinctIds(locks) && k < |locks| && |after| + 1 == |locks|
    requires forall j :: 0 <= j < |after| ==> after[j] == locks[if j < k then j else j + 1]
    ensures WaitsOnce(after) && DistinctIds(after)
  {
  }

  const PRI_MAX := 63

  /** Priorities are 0..63, lock ids are distinct, no thread waits twice, and the effective
      priorities are the least donation above the threads' own. */
  ghost predicate ValidDonation(prio: Priorities, base: Priorities, locks: seq<Lock>) {
    && LeastDonation(prio, base, locks) && WaitsOnce(locks) && DistinctIds(locks)
    && (forall t :: t in prio ==> 0 <= base[t] && prio[t] <= PRI_MAX)
  }

  lemma ReleaseKeepsValid(p: Priorities, base: Priorities, locks: seq<Lock>, k: nat, a: nat, cur: Tid, m: int)
    requires ValidDonation(p, base, locks) && k < |locks| && cur == locks[k].holder && !Waiting(locks, cur)
    requires OwnWorth(p, base, locks, k, cur, m)
    requires locks[k].waiters == [] || (a < |locks[k].waiters| &&
               forall j :: 0 <= j < |locks[k].waiters| ==> p[locks[k].waiters[j]] <= p[locks[k].waiters[a]])
    ensures ValidDonation(p[cur := m], base, HandedOver(locks, k, a))
  {
    ReleaseKeepsLeast(p, base, locks, k, a, cur, m);
    HandOverKeeps(locks, k, a);
  }

  class Threads {
    var prio: Priorities
    var base: Priorities
    var locks: seq<Lock>

    ghost predicate Valid()
      reads this
    {
      ValidDonation(prio, base, locks)
    }

    /** cur is the running thread: it waits for nothing. */
    ghost predicate Running(cur: Tid)
      reads this
    {
      cur in prio && !Waiting(locks, cur)
    }

    constructor ()
      ensures Valid() && prio == map[] && locks == []
    {
      prio, base, locks := map[], map[], [];
    }

    method Create(t: Tid, priority: int)
      requires Valid() && t !in prio && 0 <= priority <= PRI_MAX
      modifies this
      ensures Valid() && prio == old(prio)[t := priority] && base == old(base)[t := priority] && locks == old(locks)
    {
      prio, base := prio[t := priority], base[t := priority];
      CreateKeepsLeast(old(prio), old(base), locks, t, priority);
    }

    method FindLock(id: nat) returns (k: nat)
      requires Valid()
      ensures k <= |locks| && (k < |locks| ==> locks[k].id == id)
      ensures k == |locks| ==> forall i :: 0 <= i < |locks| ==> locks[i].id != id
    {
      k := 0;
      while k < |locks| && locks[k].id != id
        invariant k <= |locks| && forall i :: 0 <= i < k ==> locks[i].id != id
      {
        k := k + 1;
      }
    }

    /** `lock_acquire` up to the point where the thread holds the lock or sleeps on it. */
    method LockAcquire(cur: Tid, id: nat) returns (sleeps: bool, ghost k: nat)
      requires Valid() && Running(cur)
      requires forall i :: 0 <= i < |locks| && locks[i].id == id ==> locks[i].holder != cur
      modifies this`prio, this`locks
      ensures Valid()
      ensures !sleeps ==> prio == old(prio) && locks == old(locks) + [Lock(id, cur, [])]
      ensures sleeps ==>
                && k < |old(locks)| && old(locks)[k].id == id
                && locks == old(locks)[k := old(locks)[k].(waiters := old(locks)[k].waiters + [cur])]
    {
      var i := FindLock(id);
      k := i;
      if i == |locks| {
        locks := locks + [Lock(id, cur, [])];
        NewLockKeepsLeast(prio, base, old(locks), Lock(id, cur, []));
        sleeps := false;
        return;
      }
      var h := locks[i].holder;
      ghost var p := prio;
      if prio[cur] > prio[h] {
        prio := prio[h := prio[cur]];
      }
      assert prio == p[h := Max(p[h], p[cur])];
      ResetDonatePriority(PRI_MAX);
      AcquireKeepsLeast(p, base, locks, k, cur, prio);
      JoinWaitsOnce(locks, k, cur);
      locks := locks[i := locks[i].(waiters := locks[i].waiters + [cur])];
      sleeps := true;
    }

    /** `lock_release` with the hand-over to the most urgent waiter as one step. */
    method LockRelease(cur: Tid, id: nat) returns (ghost k: nat, ghost a: nat)
      requires Valid() && Running(cur)
      requires exists k :: 0 <= k < |locks| && locks[k].id == id && locks[k].holder == cur
      modifies this`prio, this`locks
      ensures Valid()
      ensures k < |old(locks)| && old(locks)[k].id == id && locks == HandedOver(old(locks), k, a)
      ensures old(locks)[k].waiters != [] ==> FirstMost(old(locks)[k].waiters, prio, a)
      ensures forall t :: t in prio && t != cur ==> prio[t] == old(prio)[t]
    {
      var i := FindLock(id);
      var donated := OwnDonation(cur, i);
      var m := if donated > base[cur] then donated else base[cur];
      prio := prio[cur := m];
      k := i;
      a := HandOver(i);
      assert cur !in old(locks)[k].waiters;
      ReleaseKeepsValid(old(prio), base, old(locks), k, a, cur, m);
    }

    /** `sema_up` on the lock's semaphore: its first most urgent waiter becomes the holder. */
    method HandOver(k: nat) returns (a: nat)
      requires Covers(prio, locks) && k < |locks|
      modifies this`locks
      ensures locks == HandedOver(old(locks), k, a)
      ensures old(locks)[k].waiters != [] ==> FirstMost(old(locks)[k].waiters, prio, a)
    {
      var l := locks[k];
      a := 0;
      if l.waiters != [] {
        a := MaxWaiter(l.waiters, prio);
        locks := locks[k := l.(holder := l.waiters[a], waiters := l.waiters[..a] + l.waiters[a + 1..])];
      } else {
        locks := locks[..k] + locks[k + 1..];
      }
    }

    /** The most urgent thread waiting on another lock of cur, 0 if there is none. */
    method OwnDonation(cur: Tid, k: nat) returns (m: int)
      requires Valid() && k < |locks| && cur in prio
      ensures m >= 0
      ensures forall i, w :: 0 <= i < |locks| && i != k && locks[i].holder == cur && w in locks[i].waiters ==>
                prio[w] <= m
      ensures m == 0 || exists i, w ::
                0 <= i < |locks| && i != k && locks[i].holder == cur && w in locks[i].waiters && prio[w] == m
    {
      m := 0;
      var i := 0;
      while i < |locks|
        invariant 0 <= i <= |locks| && m >= 0
        invariant forall j, w :: 0 <= j < i && j != k && locks[j].holder == cur && w in locks[j].waiters ==>
                    prio[w] <= m
        invariant m == 0 || exists j, w ::
                    0 <= j < i && j != k && locks[j].holder == cur && w in locks[j].waiters && prio[w] == m
      {
        if i != k && locks[i].holder == cur && locks[i].waiters != [] {
          var b := MaxWaiter(locks[i].waiters, prio);
          if prio[locks[i].waiters[b]] > m {
            m := prio[locks[i].waiters[b]];
            assert locks[i].waiters[b] in locks[i].waiters;
          }
        }
        i := i + 1;
      }
    }

    /** `thread_set_priority`. */
    method SetPriority(cur: Tid, priority: int)
      requires Valid() && Running(cur) && 0 <= priority <= PRI_MAX
      modifies this`prio, this`base
      ensures Valid() && base == old(base)[cur := priority]
    {
      prio := prio[cur := priority];
      base := base[cur := priority];
      ResetDonatePriority(PRI_MAX);
      SetPriorityKeepsLeast(old(prio), old(base), locks, cur, priority, prio);
    }

    /** `reset_donate_priority`: terminates and computes the least donation above the priorities it
        starts from. */
    method ResetDonatePriority(ghost bound: int)
      requires Covers(prio, locks) && forall t :: t in prio ==> prio[t] <= bound
      modifies this`prio
      ensures LeastDonation(prio, old(prio), locks)
      ensures forall t :: t in prio ==> prio[t] <= bound
      decreases Gap(locks, prio, bound)
    {
      var i := 0;
      while i < |locks|
        invariant 0 <= i <= |locks| && Covers(prio, locks) && AtLeast(prio, old(prio))
        invariant forall t :: t in prio ==> prio[t] <= bound
        invariant forall q :: AtLeast(q, old(prio)) && Closed(q, locks) ==> AtLeast(q, prio)
        invariant Closed(prio, locks) || (prio == old(prio) && forall j :: 0 <= j < i ==> Donated(prio, locks[j]))
      {
        var l := locks[i];
        if l.waiters != [] {
          var k := MaxWaiter(l.waiters, prio);
          var t := l.waiters[k];
          if prio[t] > prio[l.holder] {
            ghost var before := prio;
            prio := prio[l.holder := prio[t]];
            RaiseShrinksGap(locks, before, prio, bound, l.holder);
            ResetDonatePriority(bound);
          }
        }
        i := i + 1;
      }
    }
  }
}

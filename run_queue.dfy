/** The run queue as a value: the PCB fields the scheduler reads and writes,
 *  listed in ring order from the idle slot.  These functions state what the
 *  scheduler's ring walks compute; the Scheduler class is proved against
 *  them. */
module RunQueue {
  import opened Ring

  /** `unsigned long`, taken as 32 bits wide, as the `0xFFFFFFFF` sentinels indicate. */
  type Word = x: int | 0 <= x < 0x1_0000_0000

  /** The status value that marks a task as blocked (every other value is runnable). */
  const BLOCKED: Word := 0xFFFF_FFFF

  /** The scheduler-visible fields of one PCB. */
  datatype Entry = Entry(pid: Word, status: Word, ticks: Word, wait: Word)

  predicate Blocked(e: Entry)
  {
    e.status == BLOCKED
  }

  // ----- lookup by PID -----

  /** Position of the first entry, in ring order, whose PID is `pid`. */
  function FindPos(q: seq<Entry>, pid: Word): (r: Option<nat>)
    ensures r.Some? ==> r.value < |q| && q[r.value].pid == pid
    ensures r.Some? ==> forall j :: 0 <= j < r.value ==> q[j].pid != pid
    ensures r.None? <==> forall j :: 0 <= j < |q| ==> q[j].pid != pid
  {
    if |q| == 0 then None
    else if q[0].pid == pid then Some(0)
    else match FindPos(q[1..], pid)
      case None => None
      case Some(k) => Some(k + 1)
  }

  /** Lookup sees only the PIDs. */
  lemma {:induction false} FindPosPids(q: seq<Entry>, q': seq<Entry>, pid: Word)
    requires |q| == |q'| && forall j :: 0 <= j < |q| ==> q[j].pid == q'[j].pid
    ensures FindPos(q, pid) == FindPos(q', pid)
  {
    if |q| > 0 && q[0].pid != pid {
      FindPosPids(q[1..], q'[1..], pid);
    }
  }

  // ----- round-robin advance -----

  /** Position `d` steps after `k` in a ring of `n` positions, for `d <= n`. */
  function Ahead(n: nat, k: nat, d: nat): nat
    requires k < n && d <= n
  {
    if k + d < n then k + d else k + d - n
  }

  /** Number of steps, between 1 and `n`, from position `k` forward to `r`. */
  function Gap(n: nat, k: nat, r: nat): nat
    requires k < n && r < n
  {
    if r > k then r - k else r + n - k
  }

  /** First runnable position at or after `j`, scanning towards the end of
   *  the ring and then wrapping to the idle position 0, which is runnable. */
  function Scan(q: seq<Entry>, j: nat): (r: nat)
    requires j < |q| && !Blocked(q[0])
    ensures r < |q| && !Blocked(q[r])
    ensures r == 0 || j <= r
    ensures j <= r ==> forall i :: j <= i < r ==> Blocked(q[i])
    ensures r < j ==> forall i :: j <= i < |q| ==> Blocked(q[i])
    decreases if j == 0 then 0 else |q| - j
  {
    if !Blocked(q[j]) then j else Scan(q, Succ(|q|, j))
  }

  /** Position that becomes active when the task at position `k` hands over. */
  function Advance(q: seq<Entry>, k: nat): (r: nat)
    requires k < |q| && !Blocked(q[0])
    ensures r < |q| && !Blocked(q[r])
  {
    Scan(q, Succ(|q|, k))
  }

  /** Round-robin order: the next active position is the first runnable one
   *  strictly after `k` in ring order (going once round the ring at most),
   *  and every position passed over on the way is blocked. */
  lemma AdvanceIsNextRunnable(q: seq<Entry>, k: nat)
    requires k < |q| && !Blocked(q[0])
    ensures Advance(q, k) < |q| && !Blocked(q[Advance(q, k)])
    ensures 1 <= Gap(|q|, k, Advance(q, k)) <= |q|
    ensures forall d :: 0 < d < Gap(|q|, k, Advance(q, k)) ==> Blocked(q[Ahead(|q|, k, d)])
  {
    var n, r := |q|, Advance(q, k);
    forall d | 0 < d < Gap(n, k, r) ensures Blocked(q[Ahead(n, k, d)]) {
      if r > k {
        assert Ahead(n, k, d) == k + d;
      } else {
        assert r == 0;
        assert k + d < n ==> Ahead(n, k, d) == k + d;
      }
    }
  }

  /** Livelock fallback: when every task other than idle is blocked, the
   *  advance lands on the idle position. */
  lemma AdvanceFallsBackToIdle(q: seq<Entry>, k: nat)
    requires k < |q| && !Blocked(q[0])
    requires forall i :: 0 < i < |q| ==> Blocked(q[i])
    ensures Advance(q, k) == 0
  {
  }

  /** The advance keeps the same task exactly when that task is idle and no
   *  other task is runnable. */
  lemma AdvanceStays(q: seq<Entry>, k: nat)
    requires k < |q| && !Blocked(q[0])
    ensures Advance(q, k) == k <==> k == 0 && forall i :: 0 < i < |q| ==> Blocked(q[i])
  {
  }

  // ----- waking the waiters of a removed task -----

  /** A task blocked on `pid` becomes runnable (status 0); any other is left alone. */
  function WakeOne(e: Entry, pid: Word): (r: Entry)
    ensures r.pid == e.pid && r.wait == e.wait && r.ticks == e.ticks
    ensures Blocked(r) <==> Blocked(e) && e.wait != pid
    ensures r.status != e.status ==> Blocked(e) && e.wait == pid && r.status == 0
  {
    if Blocked(e) && e.wait == pid then e.(status := 0) else e
  }

  /** The run queue after its waiters on `pid` were woken. */
  function Wake(q: seq<Entry>, pid: Word): (r: seq<Entry>)
    ensures |r| == |q|
    ensures forall k :: 0 <= k < |q| ==>
      r[k].pid == q[k].pid && r[k].ticks == q[k].ticks && r[k].wait == q[k].wait
    ensures forall k :: 0 <= k < |q| ==> !(Blocked(r[k]) && r[k].wait == pid)
    ensures forall k :: 0 <= k < |q| && Blocked(q[k]) && q[k].wait == pid ==> r[k].status == 0
    ensures forall k :: 0 <= k < |q| && !(Blocked(q[k]) && q[k].wait == pid) ==> r[k] == q[k]
  {
    seq(|q|, k requires 0 <= k < |q| => WakeOne(q[k], pid))
  }

  // ----- the wait chain followed by a block request -----

  /** Position of the task that the task at `p` waits for, if there is one;
   *  `p` itself when the PID it waits for is not in the run queue. */
  function Hop(q: seq<Entry>, p: nat): (r: nat)
    requires p < |q|
    ensures r < |q|
    ensures || (q[r].pid == q[p].wait && forall j :: 0 <= j < r ==> q[j].pid != q[p].wait)
            || (r == p && forall j :: 0 <= j < |q| ==> q[j].pid != q[p].wait)
  {
    match FindPos(q, q[p].wait)
    case Some(j) => j
    case None => p
  }

  /** Position reached from `p` after `n` hops along the wait chain. */
  function Hops(q: seq<Entry>, p: nat, n: nat): (r: nat)
    requires p < |q|
    ensures r < |q|
    decreases n
  {
    if n == 0 then p else Hops(q, Hop(q, p), n - 1)
  }

  /** Outcome of the deadlock check. */
  datatype Verdict =
    | Clear    // the chain ends at a runnable task: the block may go ahead
    | Cycle    // the chain reaches the task asking to block
    | TooLong  // the chain ran past the hop budget

  /** The deadlock check on the chain that starts at position `p`, for the
   *  task at position `act` asking to block, with hop counter `budget`;
   *  a hop is taken while the current task is blocked, and the counter is
   *  tested (and counted down) after each hop. */
  function WaitWalk(q: seq<Entry>, p: nat, act: nat, budget: nat): (r: Verdict)
    requires p < |q|
    ensures !Blocked(q[p]) ==> r == Clear
    ensures Blocked(q[p]) && Hop(q, p) == act ==> r == Cycle
    ensures r == TooLong ==> Blocked(q[Hops(q, p, budget)]) && Hops(q, p, budget + 1) != act
    decreases budget
  {
    if !Blocked(q[p]) then Clear
    else if Hop(q, p) == act then Cycle
    else if budget == 0 then TooLong
    else WaitWalk(q, Hop(q, p), act, budget - 1)
  }

  /** One step of the check from a blocked task. */
  lemma WaitWalkStep(q: seq<Entry>, p: nat, act: nat, budget: nat)
    requires p < |q| && Blocked(q[p])
    ensures WaitWalk(q, p, act, budget) ==
      if Hop(q, p) == act then Cycle
      else if budget == 0 then TooLong
      else WaitWalk(q, Hop(q, p), act, budget - 1)
  {
  }

  /** The chain from `p` consists of blocked tasks up to hop `n`, where it
   *  reaches a runnable task, and it does not pass `act` before then. */
  ghost predicate ResolvesAt(q: seq<Entry>, p: nat, act: nat, n: nat)
    requires p < |q|
  {
    && (forall i :: 0 <= i < n ==> Blocked(q[Hops(q, p, i)]))
    && (forall i :: 1 <= i <= n ==> Hops(q, p, i) != act)
    && !Blocked(q[Hops(q, p, n)])
  }

  /** The chain from `p` consists of blocked tasks up to hop `n`, where it
   *  reaches `act` for the first time. */
  ghost predicate ReachesAt(q: seq<Entry>, p: nat, act: nat, n: nat)
    requires p < |q|
  {
    && (forall i :: 0 <= i < n ==> Blocked(q[Hops(q, p, i)]))
    && (forall i :: 1 <= i < n ==> Hops(q, p, i) != act)
    && Hops(q, p, n) == act
  }

  lemma HopsShift(q: seq<Entry>, p: nat, i: nat)
    requires p < |q|
    ensures Hops(q, p, i + 1) == Hops(q, Hop(q, p), i)
  {
  }

  /** The block goes ahead exactly when the wait chain reaches a runnable
   *  task within `budget` hops without passing the blocking task. */
  lemma {:induction false} ClearIff(q: seq<Entry>, p: nat, act: nat, budget: nat)
    requires p < |q|
    ensures WaitWalk(q, p, act, budget) == Clear <==>
            exists n :: 0 <= n <= budget && ResolvesAt(q, p, act, n)
    decreases budget
  {
    var h := Hop(q, p);
    forall i: nat ensures Hops(q, p, i + 1) == Hops(q, h, i) { HopsShift(q, p, i); }
    if !Blocked(q[p]) {
      assert ResolvesAt(q, p, act, 0);
    } else if h == act {
      forall n | 0 <= n <= budget ensures !ResolvesAt(q, p, act, n) {
        if n > 0 { assert Hops(q, p, 1) == act; }
      }
    } else if budget == 0 {
      forall n | 0 <= n <= budget ensures !ResolvesAt(q, p, act, n) {
      }
    } else {
      ClearIff(q, h, act, budget - 1);
      if WaitWalk(q, h, act, budget - 1) == Clear {
        var m :| 0 <= m <= budget - 1 && ResolvesAt(q, h, act, m);
        assert ResolvesAt(q, p, act, m + 1) by {
          forall i | 0 <= i < m + 1 ensures Blocked(q[Hops(q, p, i)]) {
            if i > 0 { assert Hops(q, p, i) == Hops(q, h, i - 1); }
          }
          forall i | 1 <= i <= m + 1 ensures Hops(q, p, i) != act {
            assert Hops(q, p, i) == Hops(q, h, i - 1);
            if i == 1 { assert Hops(q, h, 0) == h; }
          }
        }
      } else {
        forall n | 0 <= n <= budget ensures !ResolvesAt(q, p, act, n) {
          if n > 0 && ResolvesAt(q, p, act, n) {
            assert ResolvesAt(q, h, act, n - 1) by {
              forall i | 0 <= i < n - 1 ensures Blocked(q[Hops(q, h, i)]) {
                assert Hops(q, p, i + 1) == Hops(q, h, i);
              }
              forall i | 1 <= i <= n - 1 ensures Hops(q, h, i) != act {
                assert Hops(q, p, i + 1) == Hops(q, h, i);
              }
            }
          }
        }
      }
    }
  }

  /** The block is refused as a deadlock exactly when the wait chain, through
   *  blocked tasks only, reaches the blocking task within `budget + 1` hops. */
  lemma {:induction false} CycleIff(q: seq<Entry>, p: nat, act: nat, budget: nat)
    requires p < |q|
    ensures WaitWalk(q, p, act, budget) == Cycle <==>
            exists n :: 1 <= n <= budget + 1 && ReachesAt(q, p, act, n)
    decreases budget
  {
    var h := Hop(q, p);
    forall i: nat ensures Hops(q, p, i + 1) == Hops(q, h, i) { HopsShift(q, p, i); }
    if !Blocked(q[p]) {
      forall n | 1 <= n <= budget + 1 ensures !ReachesAt(q, p, act, n) {
        assert Hops(q, p, 0) == p;
      }
    } else if h == act {
      assert ReachesAt(q, p, act, 1);
    } else if budget == 0 {
      forall n | 1 <= n <= budget + 1 ensures !ReachesAt(q, p, act, n) {
      }
    } else {
      CycleIff(q, h, act, budget - 1);
      if WaitWalk(q, h, act, budget - 1) == Cycle {
        var m :| 1 <= m <= budget && ReachesAt(q, h, act, m);
        assert ReachesAt(q, p, act, m + 1) by {
          forall i | 0 <= i < m + 1 ensures Blocked(q[Hops(q, p, i)]) {
            if i > 0 { assert Hops(q, p, i) == Hops(q, h, i - 1); }
          }
          forall i | 1 <= i < m + 1 ensures Hops(q, p, i) != act {
            assert Hops(q, p, i) == Hops(q, h, i - 1);
            if i == 1 { assert Hops(q, h, 0) == h; }
          }
        }
      } else {
        forall n | 1 <= n <= budget + 1 ensures !ReachesAt(q, p, act, n) {
          if ReachesAt(q, p, act, n) {
            assert n > 1 by { assert Hops(q, p, 1) == h; }
            assert ReachesAt(q, h, act, n - 1) by {
              forall i | 0 <= i < n - 1 ensures Blocked(q[Hops(q, h, i)]) {
                assert Hops(q, p, i + 1) == Hops(q, h, i);
              }
              forall i | 1 <= i < n - 1 ensures Hops(q, h, i) != act {
                assert Hops(q, p, i + 1) == Hops(q, h, i);
              }
            }
          }
        }
      }
    }
  }

  /** A blocked task whose wait target is no longer in the run queue stays
   *  put on every hop, so the check burns its whole budget and refuses. */
  lemma {:induction false} VanishedTargetRefused(q: seq<Entry>, p: nat, act: nat, budget: nat)
    requires p < |q| && p != act && Blocked(q[p]) && FindPos(q, q[p].wait).None?
    ensures WaitWalk(q, p, act, budget) == TooLong
    decreases budget
  {
    if budget > 0 {
      VanishedTargetRefused(q, p, act, budget - 1);
    }
  }

  /** The run queue after the task at `a` blocks on `pid` and hands over
   *  having run for `ticks`. */
  function BlockAt(q: seq<Entry>, a: nat, pid: Word, ticks: Word): (r: seq<Entry>)
    requires a < |q|
    ensures |r| == |q| && Blocked(r[a]) && r[a].wait == pid && r[a].ticks == ticks && r[a].pid == q[a].pid
    ensures forall j :: 0 <= j < |q| && j != a ==> r[j] == q[j]
  {
    q[a := q[a].(status := BLOCKED, wait := pid, ticks := ticks)]
  }

  /** `BlockAt` done in the source's two steps: marking the task blocked on
   *  `pid`, then storing its ticks. */
  lemma BlockAtInSteps(q: seq<Entry>, a: nat, pid: Word, ticks: Word)
    requires a < |q|
    ensures var m := q[a := q[a].(status := BLOCKED, wait := pid)];
      m[a := m[a].(ticks := ticks)] == BlockAt(q, a, pid, ticks)
  {
  }

  /** What the deadlock check buys: when the task at `a` blocks on the first
   *  task `t` with PID `pid`, `t` is another task and the check said Clear,
   *  then afterwards the chain of waits that starts at `a` reaches a
   *  runnable task within `budget + 1` hops without coming back to `a`. */
  lemma BlockKeepsChainOpen(q: seq<Entry>, a: nat, t: nat, pid: Word, ticks: Word, budget: nat)
    requires a < |q| && t < |q| && a != t
    requires FindPos(q, pid) == Some(t) && WaitWalk(q, t, a, budget) == Clear
    ensures exists n :: 1 <= n <= budget + 1 && ResolvesAt(BlockAt(q, a, pid, ticks), a, a, n)
  {
    var q' := BlockAt(q, a, pid, ticks);
    ClearIff(q, t, a, budget);
    var m :| 0 <= m <= budget && ResolvesAt(q, t, a, m);
    FindPosPids(q, q', pid);
    assert Hop(q', a) == t;
    // off `a`, q and q' agree, so the chains from `t` agree while they avoid `a`
    forall i | 0 <= i <= m ensures Hops(q', t, i) == Hops(q, t, i) {
      HopsAgree(q, q', t, a, m, i);
    }
    forall i: nat ensures Hops(q', a, i + 1) == Hops(q', t, i) { HopsShift(q', a, i); }
    assert ResolvesAt(q', a, a, m + 1) by {
      forall i | 0 <= i < m + 1 ensures Blocked(q'[Hops(q', a, i)]) {
        if i > 0 {
          assert Hops(q', a, i) == Hops(q, t, i - 1);
          assert Hops(q, t, i - 1) != a by { if i - 1 == 0 { } }
        }
      }
      forall i | 1 <= i <= m + 1 ensures Hops(q', a, i) != a {
        assert Hops(q', a, i) == Hops(q, t, i - 1);
      }
      assert Hops(q', a, m + 1) == Hops(q, t, m);
      assert Hops(q, t, m) != a by { if m == 0 { } }
    }
  }

  lemma {:induction false} HopsAgree(q: seq<Entry>, q': seq<Entry>, t: nat, a: nat, m: nat, i: nat)
    requires |q| == |q'| && a < |q| && t < |q| && t != a && i <= m
    requires forall j :: 0 <= j < |q| ==> q[j].pid == q'[j].pid
    requires forall j :: 0 <= j < |q| && j != a ==> q'[j] == q[j]
    requires forall j :: 1 <= j <= m ==> Hops(q, t, j) != a
    ensures Hops(q', t, i) == Hops(q, t, i)
    decreases i
  {
    if i > 0 {
      HopsAgree(q, q', t, a, m, i - 1);
      var x := Hops(q, t, i - 1);
      assert x != a by { if i - 1 > 0 { } }
      HopAgree(q, q', x, a);
      HopsLast(q, t, i - 1);
      HopsLast(q', t, i - 1);
    }
  }

  lemma HopAgree(q: seq<Entry>, q': seq<Entry>, x: nat, a: nat)
    requires |q| == |q'| && x < |q| && x != a
    requires forall j :: 0 <= j < |q| ==> q[j].pid == q'[j].pid
    requires forall j :: 0 <= j < |q| && j != a ==> q'[j] == q[j]
    ensures Hop(q', x) == Hop(q, x)
  {
    assert q'[x] == q[x];
    FindPosPids(q, q', q[x].wait);
  }

  lemma {:induction false} HopsLast(q: seq<Entry>, p: nat, n: nat)
    requires p < |q|
    ensures Hops(q, p, n + 1) == Hop(q, Hops(q, p, n))
    decreases n
  {
    if n > 0 {
      HopsLast(q, Hop(q, p), n - 1);
    }
  }

  /** The check is skipped when the target is runnable, even when the target
   *  is the blocking task itself: such a request is accepted. */
  lemma RunnableTargetAccepted(q: seq<Entry>, t: nat, act: nat, budget: nat)
    requires t < |q| && !Blocked(q[t])
    ensures WaitWalk(q, t, act, budget) == Clear
  {
  }

  /** A direct cycle (the target waits for the blocking task) is refused. */
  lemma DirectCycleRefused(q: seq<Entry>, t: nat, act: nat, budget: nat)
    requires t < |q| && Blocked(q[t]) && FindPos(q, q[t].wait) == Some(act)
    ensures WaitWalk(q, t, act, budget) == Cycle
  {
  }

  /** A three-task cycle: with A blocked on B and B blocked on C, the running
   *  task C asking to wait for A is refused as a deadlock. */
  lemma ThreeCycleRefused()
    ensures var q := [Entry(0, 0, 0, 0), Entry(1, BLOCKED, 0, 2), Entry(2, BLOCKED, 0, 3), Entry(3, 0, 0, 0)];
      WaitWalk(q, 1, 3, 128) == Cycle
  {
    var q := [Entry(0, 0, 0, 0), Entry(1, BLOCKED, 0, 2), Entry(2, BLOCKED, 0, 3), Entry(3, 0, 0, 0)];
    assert q[0].pid == 0 && q[1].pid == 1 && q[2].pid == 2 && q[3].pid == 3;
    assert FindPos(q, 2).Some? && FindPos(q, 3).Some?;
    DirectCycleRefused(q, 2, 3, 127);
  }

  // ----- every wait can be resolved -----

  /** Every blocked task waits for a PID that some task in the run queue
   *  has, so the chain walk of `sched_block` always finds the task waited
   *  for. */
  ghost predicate WaitsResolve(q: seq<Entry>)
  {
    forall k :: 0 <= k < |q| && Blocked(q[k]) ==> FindPos(q, q[k].wait).Some?
  }

  /** A change that keeps every PID and either unblocks a task or leaves its
   *  status and wait alone keeps waits resolvable.  Storing ticks,
   *  `sched_getPIDinactive` and waking are such changes. */
  lemma WaitsResolveKept(q: seq<Entry>, q': seq<Entry>)
    requires WaitsResolve(q) && |q'| == |q|
    requires forall j :: 0 <= j < |q| ==> q'[j].pid == q[j].pid
    requires forall j :: 0 <= j < |q| && Blocked(q'[j]) ==> Blocked(q[j]) && q'[j].wait == q[j].wait
    ensures WaitsResolve(q')
  {
    forall k | 0 <= k < |q'| && Blocked(q'[k]) ensures FindPos(q', q'[k].wait).Some? {
      FindPosPids(q, q', q[k].wait);
    }
  }

  /** Admitting a runnable task keeps waits resolvable. */
  lemma WaitsResolveInsert(q: seq<Entry>, k: nat, e: Entry)
    requires WaitsResolve(q) && k < |q| && !Blocked(e)
    ensures WaitsResolve(Insert(q, k, e))
  {
    var q' := Insert(q, k, e);
    forall j | 0 <= j < |q'| && Blocked(q'[j]) ensures FindPos(q', q'[j].wait).Some? {
      InsertAt(q, k, e, j);
      var i := if j <= k then j else j - 1;
      var m := FindPos(q, q[i].wait).value;
      var m' := if m <= k then m else m + 1;
      InsertAt(q, k, e, m');
      assert q'[m'].pid == q[i].wait;
    }
  }

  /** Removing the first task with PID `pid` and then waking its waiters
   *  keeps waits resolvable.  A task still blocked waits for another PID,
   *  whose first holder is not the removed task. */
  lemma WaitsResolveRemove(q: seq<Entry>, k: nat, pid: Word)
    requires WaitsResolve(q) && FindPos(q, pid) == Some(k)
    ensures WaitsResolve(Wake(Delete(q, k), pid))
  {
    var d := Delete(q, k);
    var r := Wake(d, pid);
    forall j | 0 <= j < |r| && Blocked(r[j]) ensures FindPos(r, r[j].wait).Some? {
      var i := if j < k then j else j + 1;
      DeleteAt(q, k, j);
      assert r[j] == d[j] == q[i];
      var m := FindPos(q, q[i].wait).value;
      assert m != k;
      var m' := if m < k then m else m - 1;
      DeleteAt(q, k, m');
      assert r[m'].pid == q[i].wait;
    }
  }

  /** Blocking on a PID that is in the run queue, the only block the
   *  deadlock check lets through, keeps waits resolvable. */
  lemma WaitsResolveBlock(q: seq<Entry>, a: nat, pid: Word, ticks: Word)
    requires WaitsResolve(q) && a < |q| && FindPos(q, pid).Some?
    ensures WaitsResolve(BlockAt(q, a, pid, ticks))
  {
    var q' := BlockAt(q, a, pid, ticks);
    forall k | 0 <= k < |q'| && Blocked(q'[k]) ensures FindPos(q', q'[k].wait).Some? {
      FindPosPids(q, q', q'[k].wait);
    }
  }
}

/** The round-robin scheduler of scheduler/src/scheduler_algorithm.c.
 *
 *  The C globals `PCBlist`, `active` and `next` become the fields of one
 *  `Scheduler` object: `slot`, `nxt` and `lst` are the three columns of the
 *  `PCBlist` array (PCB handle, next link, last link, links as slot indices),
 *  `active` is the index of the running slot and `hw` is the index that C's
 *  `next` points at (0 while no task other than idle was admitted).  The ghost
 *  field `ring` lists the slots reached from slot 0 in `next` order.
 */
module SchedulerAlgorithm {
  import opened Ring
  import opened RunQueue

  /** Number of slots in the pool (`MAX_PCBS`). */
  const MAX_PCBS: nat := 128

  /** PID returned by the PID-returning operations on failure. */
  const FAILED: Word := 0xFFFF_FFFF

  /** A link that was never set (a null pointer in the zero-initialised globals). */
  const NIL: int := -1

  /** A task control block.  It is owned by the caller, which sees every
   *  write the scheduler makes to it. */
  class Pcb {
    var pid: Word
    var status: Word
    var ticks: Word
    var wait: Word

    constructor (pid: Word, status: Word)
      ensures this.pid == pid && this.status == status && ticks == 0 && wait == 0
    {
      this.pid := pid;
      this.status := status;
      ticks := 0;
      wait := 0;
    }
  }

  ghost function EntryOf(p: Pcb): Entry
    reads p
  {
    Entry(p.pid, p.status, p.ticks, p.wait)
  }

  /** Slots at or above this index were never used, for high-water mark `hw`. */
  function Ceiling(hw: int): int
  {
    if hw == 0 then 1 else hw
  }

  /** Structure of the pool as values: `sl` are the PCB handles of the slots,
   *  `hw` the high-water mark, `ring` the slots in `next` order.  The ring
   *  starts at slot 0, holds distinct slots below the mark and exactly the
   *  occupied slots other than 0; no PCB sits in two slots; slot 0 is empty
   *  only while nothing was admitted. */
  ghost predicate Shaped(sl: seq<Pcb?>, hw: int, ring: seq<int>)
  {
    && |sl| == MAX_PCBS
    && (hw == 0 || 2 <= hw <= MAX_PCBS)
    && |ring| >= 1 && ring[0] == 0 && Distinct(ring)
    && (forall k :: 0 <= k < |ring| ==> 0 <= ring[k] < Ceiling(hw))
    && (hw == 0 ==> ring == [0])
    && (forall i :: 1 <= i < MAX_PCBS ==> (sl[i] != null <==> i in ring))
    && (forall i, j :: 0 <= i < j < MAX_PCBS && sl[i] != null ==> sl[i] != sl[j])
    && (sl[0] == null ==> hw == 0)
  }

  /** Putting a PCB held nowhere else into an empty slot below the mark, and
   *  that slot into the ring after position `k`, keeps the structure. */
  lemma ShapedInsert(sl: seq<Pcb?>, hw: int, ring: seq<int>, k: nat, s: int, pcb: Pcb)
    requires Shaped(sl, hw, ring) && k < |ring| && 1 <= s < Ceiling(hw) && sl[s] == null
    requires forall i :: 0 <= i < |sl| ==> sl[i] != pcb
    ensures Shaped(sl[s := pcb], hw, Insert(ring, k, s))
  {
    var r := Insert(ring, k, s);
    assert s !in ring;
    InsertAt(ring, k, s, 0);
    forall x, y | 0 <= x < y < |r| ensures r[x] != r[y] {
      InsertAt(ring, k, s, x);
      InsertAt(ring, k, s, y);
    }
    forall j | 0 <= j < |r| ensures 0 <= r[j] < Ceiling(hw) && (r[j] == s || r[j] in ring) {
      InsertAt(ring, k, s, j);
    }
    forall i | 1 <= i < MAX_PCBS ensures sl[s := pcb][i] != null <==> i in r {
      if i in ring {
        var j := IndexOf(ring, i);
        InsertAt(ring, k, s, if j <= k then j else j + 1);
      } else if i == s {
        InsertAt(ring, k, s, k + 1);
      }
    }
  }

  /** Raising the mark over a slot that is still empty keeps the structure. */
  lemma ShapedRaise(sl: seq<Pcb?>, hw: int, ring: seq<int>)
    requires Shaped(sl, hw, ring) && sl[0] != null && hw < MAX_PCBS
    ensures Shaped(sl, if hw == 0 then 2 else hw + 1, ring)
  {
  }

  /** With the idle slot filled, every slot on the ring holds a PCB. */
  lemma ShapedOccupied(sl: seq<Pcb?>, hw: int, ring: seq<int>)
    requires Shaped(sl, hw, ring) && sl[0] != null
    ensures forall j :: 0 <= j < |ring| ==> 0 <= ring[j] < |sl| && sl[ring[j]] != null
  {
    forall j | 0 <= j < |ring| ensures 0 <= ring[j] < |sl| && sl[ring[j]] != null {
      assert ring[j] in ring;
    }
  }

  /** Different ring positions hold different PCBs. */
  lemma ShapedOccupiedDistinct(sl: seq<Pcb?>, hw: int, ring: seq<int>)
    requires Shaped(sl, hw, ring) && sl[0] != null
    ensures forall j :: 0 <= j < |ring| ==> 0 <= ring[j] < |sl| && sl[ring[j]] != null
    ensures forall t, j :: 0 <= t < |ring| && 0 <= j < |ring| && t != j ==> sl[ring[t]] != sl[ring[j]]
  {
    ShapedOccupied(sl, hw, ring);
    forall t, j | 0 <= t < |ring| && 0 <= j < |ring| && t != j ensures sl[ring[t]] != sl[ring[j]] {
      if t < j {
        assert ring[t] != ring[j];
      } else {
        assert ring[j] != ring[t];
      }
    }
  }

  /** Emptying the slot at position `k > 0` and taking it off the ring keeps
   *  the structure. */
  lemma ShapedDelete(sl: seq<Pcb?>, hw: int, ring: seq<int>, k: nat)
    requires Shaped(sl, hw, ring) && 0 < k < |ring|
    ensures Shaped(sl[ring[k] := null], hw, Delete(ring, k))
  {
    var r := Delete(ring, k);
    var x := ring[k];
    DeleteAt(ring, k, 0);
    forall a, b | 0 <= a < b < |r| ensures r[a] != r[b] {
      DeleteAt(ring, k, a);
      DeleteAt(ring, k, b);
    }
    forall j | 0 <= j < |r| ensures 0 <= r[j] < Ceiling(hw) && r[j] in ring && r[j] != x {
      DeleteAt(ring, k, j);
    }
    forall i | 1 <= i < MAX_PCBS ensures sl[x := null][i] != null <==> i in r {
      if i in ring && i != x {
        var j := IndexOf(ring, i);
        DeleteAt(ring, k, if j < k then j else j - 1);
      }
    }
  }

  /** Where `sched_new` puts a task: ring position of the running task,
   *  slot index, and the PCB itself. */
  datatype Admission = Admission(pos: nat, index: nat, pcb: Pcb)

  class Scheduler {
    var slot: array<Pcb?>
    var nxt: array<int>
    var lst: array<int>
    var active: int
    var hw: int
    ghost var ring: seq<int>

    /** The PCBs currently held by the pool. */
    ghost function Pcbs(): set<Pcb>
      reads this`slot, slot
    {
      set i | 0 <= i < slot.Length && slot[i] != null :: slot[i]
    }

    /** The idle task's PCB, when installed. */
    ghost function Idle(): set<Pcb>
      reads this`slot, slot
    {
      if 0 < slot.Length && slot[0] != null then {slot[0]} else {}
    }

    /** The running task's PCB, when there is one. */
    ghost function Running(): set<Pcb>
      reads this`slot, this`active, slot
    {
      if 0 <= active < slot.Length && slot[active] != null then {slot[active]} else {}
    }

    /** Structure of the pool, needing no links (see `Shaped`). */
    ghost predicate Shape()
      reads this`slot, this`nxt, this`lst, this`hw, this`ring, slot
    {
      && slot.Length == MAX_PCBS && nxt.Length == MAX_PCBS && lst.Length == MAX_PCBS
      && nxt != lst
      && Shaped(slot[..], hw, ring)
    }

    /** The active slot is on the ring. */
    ghost predicate ActiveOk()
      reads this`active, this`ring
    {
      0 <= active < MAX_PCBS && active in ring
    }

    /** The scheduler after `SetupIdle`, whichever slot is active: the ring is closed through both
     *  links and slot 0 holds the idle task, PID 0, never blocked. */
    ghost predicate Core()
      reads this`slot, this`nxt, this`lst, this`hw, this`ring, slot, nxt, lst, Idle()
    {
      && Shape()
      && slot[0] != null && Occupied()
      && Linked(ring, nxt[..], lst[..])
      && slot[0].pid == 0 && slot[0].status != BLOCKED
    }

    /** Between operations, moreover, the active task is runnable. */
    ghost predicate Valid()
      reads this, slot, nxt, lst, Idle(), Running()
    {
      Core() && ActiveOk() && slot[active] != null && slot[active].status != BLOCKED
    }

    /** Which of the first `n` slots hold a PCB. */
    ghost function UsedBelow(n: nat): (u: seq<bool>)
      reads this`slot, slot
      requires n <= slot.Length
      ensures |u| == n && forall i :: 0 <= i < n ==> u[i] == (slot[i] != null)
    {
      if n == 0 then [] else UsedBelow(n - 1) + [slot[n - 1] != null]
    }

    /** Which slots hold a PCB. */
    ghost function Used(): (u: seq<bool>)
      reads this`slot, slot
      ensures |u| == slot.Length && forall i :: 0 <= i < slot.Length ==> u[i] == (slot[i] != null)
    {
      UsedBelow(slot.Length)
    }

    /** The scheduler-visible fields of the PCBs in the slots `r`, in order. */
    ghost function EntriesOf(r: seq<int>): (q: seq<Entry>)
      reads this`slot, slot, Pcbs()
      requires forall k :: 0 <= k < |r| ==> 0 <= r[k] < slot.Length && slot[r[k]] != null
      ensures |q| == |r|
      ensures forall k :: 0 <= k < |r| ==> q[k] == EntryOf(slot[r[k]])
    {
      if r == [] then [] else EntriesOf(r[..|r| - 1]) + [EntryOf(slot[r[|r| - 1]])]
    }

    /** Every slot on the ring holds a PCB. */
    ghost predicate Occupied()
      reads this`slot, this`ring, slot
    {
      forall k :: 0 <= k < |ring| ==> 0 <= ring[k] < slot.Length && slot[ring[k]] != null
    }

    /** The run queue in ring order. */
    ghost function Entries(): (q: seq<Entry>)
      reads this`slot, this`ring, slot, Pcbs()
      requires Occupied()
      ensures |q| == |ring|
      ensures forall k :: 0 <= k < |ring| ==> slot[ring[k]] != null && q[k] == EntryOf(slot[ring[k]])
    {
      EntriesOf(ring)
    }

    /** Position of the active slot in the ring. */
    ghost function APos(): (k: nat)
      reads this`active, this`ring
      requires ActiveOk()
      ensures k < |ring| && ring[k] == active
    {
      IndexOf(ring, active)
    }

    /** The globals before anything ran: no PCBs, null links, `active` at
     *  slot 0, no task admitted. */
    constructor ()
      ensures Shape() && ActiveOk() && slot[0] == null
      ensures fresh(slot) && fresh(nxt) && fresh(lst)
      ensures hw == 0 && active == 0 && ring == [0]
    {
      slot := new Pcb?[MAX_PCBS](_ => null);
      nxt := new int[MAX_PCBS](_ => NIL);
      lst := new int[MAX_PCBS](_ => NIL);
      active, hw := 0, 0;
      ring := [0];
    }

    /** `Valid` from facts about the values of the fields. */
    lemma Assembled()
      requires slot.Length == MAX_PCBS && nxt.Length == MAX_PCBS && lst.Length == MAX_PCBS && nxt != lst
      requires Shaped(slot[..], hw, ring) && Linked(ring, nxt[..], lst[..])
      requires slot[0] != null && slot[0].pid == 0 && slot[0].status != BLOCKED
      requires 0 <= active < MAX_PCBS && active in ring
      requires slot[active] != null && slot[active].status != BLOCKED
      ensures Valid()
    {
      ShapedOccupied(slot[..], hw, ring);
    }

    /** `ShapedOccupiedDistinct` read off the heap, for one position `j`:
     *  the methods that write into the PCB at `j` use it to frame every
     *  other task as unchanged. */
    lemma DistinctTasks(j: nat)
      requires Shape() && Occupied() && j < |ring|
      ensures forall t :: 0 <= t < |ring| && t != j ==> slot[ring[t]] != slot[ring[j]]
    {
      ShapedOccupiedDistinct(slot[..], hw, ring);
      forall t | 0 <= t < |ring| && t != j ensures slot[ring[t]] != slot[ring[j]] {
        assert slot[..][ring[t]] == slot[ring[t]] && slot[..][ring[j]] == slot[ring[j]];
      }
    }

    /** Closure of the run queue: walking `next` from slot 0
     *  meets exactly the occupied slots and comes back to slot 0 after as
     *  many steps as there are tasks; walking `last` closes the same way. */
    lemma RingVisitsOccupied()
      requires Core()
      ensures Follow(nxt[..], 0, |ring|) == 0 && FollowBack(lst[..], 0, |ring|) == 0
      ensures forall j :: 0 < j < |ring| ==> Follow(nxt[..], 0, j) != 0 && FollowBack(lst[..], 0, j) != 0
      ensures forall i :: 0 <= i < MAX_PCBS ==>
        (slot[i] != null <==> Reached(nxt[..], 0, |ring|, i))
    {
      RingClosed(ring, nxt[..], lst[..]);
      RingCovers(ring, nxt[..], lst[..]);
      RingFirstReturn(ring, nxt[..], lst[..]);
      forall i | 0 <= i < MAX_PCBS
        ensures slot[i] != null <==> Reached(nxt[..], 0, |ring|, i)
      {
        assert slot[i] != null <==> i in ring;
      }
    }

    /** `setup_idle`: installs the idle PCB at slot 0, forcing its PID to 0.
     *  While no task was admitted, slot 0 becomes a ring of its own. */
    method SetupIdle(pcb: Pcb) returns (r: Word)
      requires Shape() && ActiveOk() && (slot[0] != null ==> Valid())
      requires pcb.status != BLOCKED
      requires forall i :: 1 <= i < MAX_PCBS ==> slot[i] != pcb
      modifies slot, nxt, lst, pcb
      ensures Valid()
      ensures r == 0 && pcb.pid == 0
      ensures pcb.status == old(pcb.status) && pcb.ticks == old(pcb.ticks) && pcb.wait == old(pcb.wait)
      ensures slot[..] == old(slot[..])[0 := pcb]
      ensures old(hw) == 0 ==> nxt[..] == old(nxt[..])[0 := 0] && lst[..] == old(lst[..])[0 := 0]
      ensures old(hw) != 0 ==> nxt[..] == old(nxt[..]) && lst[..] == old(lst[..])
      ensures Entries()[0] == EntryOf(pcb)
      ensures forall k :: 1 <= k < |ring| ==> Entries()[k] == old(EntryOf(slot[ring[k]]))
    {
      if hw == 0 {
        nxt[0] := 0;
        lst[0] := 0;
      }
      pcb.pid := 0;
      slot[0] := pcb;
      r := pcb.pid;
      IdleInstalled(pcb);
    }

    /** The pool after `SetupIdle`'s writes is valid, and the tasks other
     *  than idle are as they were. */
    twostate lemma IdleInstalled(pcb: Pcb)
      requires old(Shape()) && old(ActiveOk()) && (old(slot[0]) != null ==> old(Valid()))
      requires forall i :: 1 <= i < MAX_PCBS ==> old(slot[i]) != pcb
      requires slot == old(slot) && nxt == old(nxt) && lst == old(lst)
      requires hw == old(hw) && active == old(active) && ring == old(ring)
      requires slot[..] == old(slot[..])[0 := pcb] && pcb.pid == 0 && pcb.status != BLOCKED
      requires old(hw) == 0 ==> nxt[..] == old(nxt[..])[0 := 0] && lst[..] == old(lst[..])[0 := 0]
      requires old(hw) != 0 ==> nxt[..] == old(nxt[..]) && lst[..] == old(lst[..])
      requires forall i :: 1 <= i < MAX_PCBS && old(slot[i]) != null ==> unchanged(old(slot[i]))
      ensures Valid()
      ensures Entries()[0] == EntryOf(pcb)
      ensures forall k :: 1 <= k < |ring| ==> Entries()[k] == old(EntryOf(slot[ring[k]]))
    {
      assert Shaped(slot[..], hw, ring);
      if old(hw) == 0 {
        assert ring == [0];
      }
      forall k | 1 <= k < |ring| ensures slot[ring[k]] == old(slot[ring[k]]) != null {
        assert ring[k] != ring[0];
      }
    }

    /** The splice of `sched_new`: slot `s` gets `pcb`, takes over the
     *  successor of the active slot, and both neighbours point at it; the
     *  ring gains `s` after the active position `k`. */
    method Splice(s: int, pcb: Pcb, ghost k: nat)
      requires slot.Length == MAX_PCBS && nxt.Length == MAX_PCBS && lst.Length == MAX_PCBS
      requires nxt != lst && 0 <= s < MAX_PCBS && 0 <= active < MAX_PCBS && s != active
      requires 0 <= nxt[active] < MAX_PCBS && k < |ring|
      modifies this`ring, slot, nxt, lst
      ensures ring == old(ring[..k + 1] + [s] + ring[k + 1..])
      ensures slot[..] == old(slot[..])[s := pcb]
      ensures nxt[..] == old(nxt[..])[s := old(nxt[..])[active]][active := s]
      ensures lst[..] == old(lst[..])[s := active][old(nxt[..])[active] := s]
    {
      slot[s] := pcb;
      nxt[s] := nxt[active];
      lst[s] := active;
      nxt[active] := s;
      lst[nxt[s]] := s;
      ring := ring[..k + 1] + [s] + ring[k + 1..];
    }

    /** The pool after `sched_new` put `at.pcb` into the slot `at.index`
     *  that `Placement` chose, spliced in after ring position `at.pos` of the
     *  running task: it is valid again and its run queue has the new entry
     *  right after the running one. */
    twostate lemma Admitted(at: Admission)
      requires old(Valid()) && old(at.pcb !in Pcbs())
      requires at.pos == old(APos()) && old(Placement(Used(), hw)) == Some(at.index)
      requires slot == old(slot) && nxt == old(nxt) && lst == old(lst) && active == old(active)
      requires hw == RaisedMark(old(hw), at.index) && ring == Insert(old(ring), at.pos, at.index)
      requires slot[..] == old(slot[..])[at.index := at.pcb]
      requires nxt[..] == old(nxt[..])[at.index := old(nxt[..])[active]][active := at.index]
      requires lst[..] == old(lst[..])[at.index := active][old(nxt[..])[active] := at.index]
      requires unchanged(old(Pcbs())) && unchanged(at.pcb)
      ensures Valid()
      ensures Entries() == Insert(old(Entries()), at.pos, EntryOf(at.pcb))
    {
      var k, s, pcb := at.pos, at.index, at.pcb;
      var R := old(ring);
      var S := old(slot[..]);
      var N := old(nxt[..]);
      var L := old(lst[..]);
      var used := old(Used());
      forall i | Ceiling(old(hw)) <= i < |used| ensures !used[i] {
        assert i !in R;
      }
      PlacementIsLowestFree(used, old(hw));
      assert S[s] == null && s !in R;
      if hw != old(hw) {
        ShapedRaise(S, old(hw), R);
      }
      assert Shaped(S, hw, R);
      ShapedInsert(S, hw, R, k, s, pcb);
      SpliceAfter(R, N, L, k, s);
      InsertAt(R, k, s, k);
      assert slot[0] == S[0] && slot[active] == S[active];
      assert S[0] in old(Pcbs()) && S[active] in old(Pcbs());
      Assembled();
      EntriesInserted(at);
    }

    /** The run queue after slot `at.index` got `at.pcb` and was put in the
     *  ring after position `at.pos`. */
    twostate lemma EntriesInserted(at: Admission)
      requires old(Occupied()) && Occupied()
      requires at.pos < |old(ring)| && ring == Insert(old(ring), at.pos, at.index) && at.index !in old(ring)
      requires slot == old(slot) && at.index < slot.Length && slot[..] == old(slot[..])[at.index := at.pcb]
      requires unchanged(old(Pcbs())) && unchanged(at.pcb)
      ensures Entries() == Insert(old(Entries()), at.pos, EntryOf(at.pcb))
    {
      var k, s, pcb := at.pos, at.index, at.pcb;
      forall j | 0 <= j < |ring| ensures Entries()[j] == Insert(old(Entries()), k, EntryOf(pcb))[j] {
        InsertAt(old(ring), k, s, j);
        InsertAt(old(Entries()), k, EntryOf(pcb), j);
        if j != k + 1 {
          var x := old(ring)[if j <= k then j else j - 1];
          assert old(slot[x]) in old(Pcbs());
        }
      }
    }

    /** The slot choice of `sched_new`: slot 1 on the first admission;
     *  afterwards the first empty slot met scanning up from slot 1 to the
     *  high-water mark, else the slot at the mark, else none (`NIL`). */
    method Place() returns (s: int)
      requires Core()
      ensures s == match Placement(Used(), hw) case Some(i) => i case None => NIL
    {
      if hw == 0 {
        return 1;
      }
      var p := 1;
      while p < hw && slot[p] != null
        invariant 1 <= p <= hw
        invariant forall i :: 1 <= i < p ==> slot[i] != null
        decreases hw - p
      {
        p := p + 1;
      }
      assert p == FirstFree(Used(), 1, hw);
      if p < hw {
        return p;
      } else if hw >= MAX_PCBS {
        return NIL;
      }
      return hw;
    }

    /** `sched_new`: admits `pcb` into the slot `Place` picks, after the
     *  running task in the ring, and moves the high-water mark past it when
     *  the slot was the one at the mark; with every slot taken the call
     *  fails and changes nothing. */
    method New(pcb: Pcb) returns (r: Word)
      requires Valid() && pcb !in Pcbs()
      modifies this`ring, this`hw, slot, nxt, lst
      ensures Valid()
      ensures match Placement(old(Used()), old(hw))
        case None =>
          && r == FAILED && ring == old(ring) && hw == old(hw)
          && slot[..] == old(slot[..]) && nxt[..] == old(nxt[..]) && lst[..] == old(lst[..])
        case Some(s) =>
          && r == pcb.pid && hw == RaisedMark(old(hw), s)
          && ring == Insert(old(ring), old(APos()), s)
          && slot[..] == old(slot[..])[s := pcb]
          && nxt[..] == old(nxt[..])[s := old(nxt[..])[active]][active := s]
          && lst[..] == old(lst[..])[s := active][old(nxt[..])[active] := s]
          && Entries() == Insert(old(Entries()), old(APos()), EntryOf(pcb))
    {
      ghost var k := APos();
      NextOf(ring, nxt[..], lst[..], k);
      var s := Place();
      if s == NIL {
        return FAILED;
      }
      assert s != active && slot[s] == null by {
        assert active in ring;
        if hw != 0 && s >= hw { assert s !in ring; }
      }
      Splice(s, pcb, k);
      if hw == 0 {
        hw := 2;
      } else if s == hw {
        hw := hw + 1;
      }
      Admitted(Admission(k, s, pcb));
      return pcb.pid;
    }

    /** The ring walk shared by `sched_find`, `sched_remove` and `sched_block`:
     *  from slot 0 along `next` until slot 0 comes round again, stopping at the
     *  first PCB whose PID is `pid`.  Returns its slot, or `NIL`. */
    method Lookup(pid: Word) returns (s: int)
      requires Core()
      ensures s == match FindPos(Entries(), pid) case Some(k) => ring[k] case None => NIL
    {
      var p := 0;
      ghost var k := 0;
      while true
        invariant 0 <= k < |ring| && p == ring[k]
        invariant forall j :: 0 <= j < k ==> Entries()[j].pid != pid
        decreases |ring| - k
      {
        if slot[p].pid == pid {
          return p;
        }
        NextOf(ring, nxt[..], lst[..], k);
        p := nxt[p];
        k := k + 1;
        if p == 0 {
          break;
        }
      }
      return NIL;
    }

    /** `sched_find`: the first PCB in ring order with PID `pid`, or null. */
    method Find(pid: Word) returns (p: Pcb?)
      requires Valid()
      ensures p == match FindPos(Entries(), pid) case Some(k) => slot[ring[k]] case None => null
      ensures p != null ==> p in Pcbs() && p.pid == pid
    {
      var s := Lookup(pid);
      p := if s == NIL then null else slot[s];
    }

    /** The unlink of `sched_remove`: the neighbours `prev` and `succ` of
     *  slot `s` are linked to each other, slot `s` is emptied, and the ring
     *  loses position `k`. */
    method Detach(s: int, ghost prev: int, ghost succ: int, ghost k: nat)
      requires slot.Length == MAX_PCBS && nxt.Length == MAX_PCBS && lst.Length == MAX_PCBS
      requires nxt != lst && 0 <= s < MAX_PCBS && 0 <= prev < MAX_PCBS && 0 <= succ < MAX_PCBS
      requires lst[s] == prev && nxt[s] == succ && k < |ring|
      modifies this`ring, slot, nxt, lst
      ensures ring == old(Delete(ring, k))
      ensures slot[..] == old(slot[..])[s := null]
      ensures nxt[..] == old(nxt[..])[prev := succ]
      ensures lst[..] == old(lst[..])[succ := prev]
    {
      nxt[lst[s]] := nxt[s];
      lst[nxt[s]] := lst[s];
      slot[s] := null;
      ring := Delete(ring, k);
    }

    /** The pool that held the slots `sl`, ring `r` and links `nx`, `ls`,
     *  with run queue `q`, after the task at ring position `k` (neither the
     *  idle nor the running one) was unlinked: it is valid again, and its
     *  run queue lacks that task. */
    lemma Unlinked(sl: seq<Pcb?>, r: seq<int>, nx: seq<int>, ls: seq<int>, q: seq<Entry>, k: nat)
      requires Shaped(sl, hw, r) && Linked(r, nx, ls) && 0 < k < |r| && |q| == |r|
      requires slot.Length == MAX_PCBS && nxt.Length == MAX_PCBS && lst.Length == MAX_PCBS && nxt != lst
      requires forall t :: 0 <= t < |r| ==> 0 <= r[t] < |sl| && sl[r[t]] != null && EntryOf(sl[r[t]]) == q[t]
      requires sl[0] != null && sl[0].pid == 0 && sl[0].status != BLOCKED
      requires active in r && active != r[k] && 0 <= active < MAX_PCBS
      requires sl[active] != null && sl[active].status != BLOCKED
      requires ring == Delete(r, k) && slot[..] == sl[r[k] := null]
      requires nxt[..] == nx[r[k - 1] := r[Succ(|r|, k)]] && lst[..] == ls[r[Succ(|r|, k)] := r[k - 1]]
      ensures Valid() && Entries() == Delete(q, k)
    {
      ShapedDelete(sl, hw, r, k);
      Unlink(r, nx, ls, k);
      var a := IndexOf(r, active);
      DeleteAt(r, k, if a < k then a else a - 1);
      assert slot[0] == sl[0] && slot[active] == sl[active];
      Assembled();
      forall j | 0 <= j < |ring| ensures Entries()[j] == Delete(q, k)[j] {
        DeleteAt(r, k, j);
        DeleteAt(q, k, j);
      }
    }

    /** The test-and-wake of one task in the wake-up walk of `sched_remove`. */
    static method WakeTask(e: Pcb, pid: Word)
      modifies e
      ensures EntryOf(e) == WakeOne(old(EntryOf(e)), pid)
    {
      if e.status == BLOCKED && e.wait == pid {
        e.status := 0;
      }
    }

    /** The wake-up walk of `sched_remove`: from slot 0 along `next` once
     *  round the ring, every task blocked waiting for `pid` is made
     *  runnable (status 0); nothing else changes. */
    method WakeWaiters(pid: Word)
      requires Valid()
      modifies Pcbs()
      ensures Valid() && Entries() == Wake(old(Entries()), pid)
      ensures ring == old(ring) && slot[..] == old(slot[..])
      ensures nxt[..] == old(nxt[..]) && lst[..] == old(lst[..])
    {
      ghost var R, S, N, L, q := ring, slot[..], nxt[..], lst[..], Entries();
      ShapedOccupiedDistinct(S, hw, R);
      WakeWalk(R, S, N, L, q, pid);
      Woken(R, S, N, L, q, pid);
    }

    /** The loop of the wake-up walk, over the ring `r` whose tasks, the
     *  PCBs `sl[r[t]]`, have the entries `q`. */
    method WakeWalk(ghost r: seq<int>, ghost sl: seq<Pcb?>, ghost nx: seq<int>, ghost ls: seq<int>,
                    ghost q: seq<Entry>, pid: Word)
      requires Linked(r, nx, ls) && r[0] == 0 && |q| == |r|
      requires slot[..] == sl && nxt[..] == nx && lst[..] == ls && nxt.Length == |nx|
      requires forall t :: 0 <= t < |r| ==> 0 <= r[t] < |sl| && sl[r[t]] != null
      requires forall t, j :: 0 <= t < |r| && 0 <= j < |r| && t != j ==> sl[r[t]] != sl[r[j]]
      requires forall t :: 0 <= t < |r| ==> EntryOf(sl[r[t]]) == q[t]
      modifies set t | 0 <= t < |r| :: sl[r[t]]
      ensures slot[..] == sl && nxt[..] == nx && lst[..] == ls
      ensures forall t :: 0 <= t < |r| ==> EntryOf(sl[r[t]]) == WakeOne(q[t], pid)
    {
      var p := 0;
      ghost var j := 0;
      while true
        invariant 0 <= j < |r| && p == r[j]
        invariant forall t :: 0 <= t < |r| ==>
          EntryOf(sl[r[t]]) == if t < j then WakeOne(q[t], pid) else q[t]
        decreases |r| - j
      {
        NextOf(r, nx, ls, j);
        WakeTask(slot[p], pid);
        p := nxt[p];
        j := j + 1;
        if p == 0 {
          assert j == |r|;
          break;
        }
      }
    }

    /** The PCBs in the slots `sl`, which make up the pool `P`, less the
     *  one taken out of ring position `k`: the pool now holds none but
     *  those.  */
    lemma UnheldAfter(sl: seq<Pcb?>, r: seq<int>, k: nat, P: set<Pcb>)
      requires Shaped(sl, hw, r) && 0 < k < |r| && sl[r[k]] != null
      requires forall i :: 0 <= i < |sl| && sl[i] != null ==> sl[i] in P
      requires slot[..] == sl[r[k] := null]
      ensures sl[r[k]] !in Pcbs() && Pcbs() <= P
    {
      forall i | 0 <= i < slot.Length ensures slot[i] != sl[r[k]] && (slot[i] != null ==> slot[i] in P) {
        assert slot[i] == sl[r[k] := null][i];
      }
    }

    /** Every PCB in a slot is in the pool. */
    lemma Held()
      ensures forall i :: 0 <= i < slot.Length && slot[..][i] != null ==> slot[..][i] in Pcbs()
    {
      forall i | 0 <= i < slot.Length && slot[..][i] != null ensures slot[..][i] in Pcbs() {
        assert slot[..][i] == slot[i];
      }
    }

    /** Waking tasks keeps the pool valid: a pool whose slots, ring and
     *  links are still `sl`, `r`, `nx` and `ls` of a valid pool with run
     *  queue `q`, and whose tasks now have the entries of `q` woken for
     *  `pid`, is valid with run queue `Wake(q, pid)`. */
    lemma Woken(r: seq<int>, sl: seq<Pcb?>, nx: seq<int>, ls: seq<int>, q: seq<Entry>, pid: Word)
      requires Shaped(sl, hw, r) && Linked(r, nx, ls) && |q| == |r|
      requires slot.Length == MAX_PCBS && nxt.Length == MAX_PCBS && lst.Length == MAX_PCBS && nxt != lst
      requires ring == r && slot[..] == sl && nxt[..] == nx && lst[..] == ls
      requires forall t :: 0 <= t < |r| ==> 0 <= r[t] < |sl| && sl[r[t]] != null
      requires forall t :: 0 <= t < |r| ==> EntryOf(sl[r[t]]) == WakeOne(q[t], pid)
      requires 0 <= active < MAX_PCBS && active in r
      requires !Blocked(q[0]) && !Blocked(q[IndexOf(r, active)]) && q[0].pid == 0
      ensures Valid() && Entries() == Wake(q, pid)
    {
      var a := IndexOf(r, active);
      assert slot[0] == sl[r[0]] && slot[active] == sl[r[a]];
      Assembled();
      forall t | 0 <= t < |ring| ensures Entries()[t] == Wake(q, pid)[t] {
        assert slot[ring[t]] == sl[r[t]];
      }
    }

    /** The unlink of `sched_remove` for the task in slot `s`, at ring
     *  position `k`: afterwards the pool is valid, the run queue lacks the
     *  task, and its PCB, returned, is held nowhere. */
    method Unhook(s: int, ghost k: nat, ghost R: seq<int>, ghost S: seq<Pcb?>, ghost N: seq<int>,
                  ghost L: seq<int>, ghost q: seq<Entry>, ghost P: set<Pcb>) returns (r: Pcb)
      requires ring == R && slot[..] == S && nxt[..] == N && lst[..] == L
      requires slot.Length == MAX_PCBS && nxt.Length == MAX_PCBS && lst.Length == MAX_PCBS && nxt != lst
      requires Shaped(S, hw, R) && Linked(R, N, L) && |q| == |R|
      requires forall t :: 0 <= t < |R| ==> 0 <= R[t] < |S| && S[R[t]] != null && EntryOf(S[R[t]]) == q[t]
      requires S[0] != null && S[0].pid == 0 && S[0].status != BLOCKED
      requires 0 <= active < MAX_PCBS && active in R && S[active] != null && S[active].status != BLOCKED
      requires 0 < k < |R| && s == R[k] && s != active
      requires forall i :: 0 <= i < |S| && S[i] != null ==> S[i] in P
      modifies this`ring, slot, nxt, lst
      ensures Valid() && Entries() == Delete(q, k)
      ensures r == S[s] && EntryOf(r) == q[k] && r !in Pcbs() && Pcbs() <= P
      ensures ring == Delete(R, k) && slot[..] == S[s := null]
      ensures nxt[..] == NextUnlinked(N, R, k) && lst[..] == LastUnlinked(L, R, k)
    {
      NextOf(R, N, L, k);
      NextOf(R, N, L, k - 1);
      r := slot[s];
      Detach(s, R[k - 1], R[Succ(|R|, k)], k);
      Unlinked(S, R, N, L, q, k);
      UnheldAfter(S, R, k, P);
    }

    /** The found branch of `sched_remove`: unlinks the task with PID
     *  `pid`, first on the ring at position `k` in slot `s`, and wakes the
     *  tasks that wait for it. */
    method RemoveAt(s: int, pid: Word, ghost k: nat, ghost R: seq<int>, ghost S: seq<Pcb?>,
                    ghost N: seq<int>, ghost L: seq<int>, ghost q: seq<Entry>) returns (r: Pcb)
      requires Valid() && ring == R && slot[..] == S && nxt[..] == N && lst[..] == L && Entries() == q
      requires FindPos(q, pid) == Some(k) && 0 < k && s == R[k] && s != active
      modifies this`ring, slot, nxt, lst, Pcbs()
      ensures Valid()
      ensures r == S[s] && EntryOf(r) == q[k]
      ensures ring == Delete(R, k) && slot[..] == S[s := null]
      ensures nxt[..] == NextUnlinked(N, R, k) && lst[..] == LastUnlinked(L, R, k)
      ensures Entries() == Wake(Delete(q, k), pid)
    {
      ghost var P := Pcbs();
      Held();
      ShapedOccupied(S, hw, R);
      r := Unhook(s, k, R, S, N, L, q, P);
      WakeWaiters(r.pid);
    }

    /** `sched_remove`: takes the first task with PID `pid` off the ring,
     *  wakes the tasks that wait for it, and returns its PCB; returns null,
     *  changing nothing, when no task has that PID or it is the running one.
     *  The idle task (PID 0) is never asked for. */
    method Remove(pid: Word) returns (r: Pcb?)
      requires Valid() && pid != 0
      modifies this`ring, slot, nxt, lst, Pcbs()
      ensures Valid()
      ensures var f := FindPos(old(Entries()), pid);
        if f.Some? && old(ring[f.value]) != active then
          var k := f.value;
          && 0 < k < |old(ring)|
          && r == old(slot[ring[k]]) && EntryOf(r) == old(Entries()[k])
          && ring == Delete(old(ring), k)
          && slot[..] == old(slot[..])[old(ring[k]) := null]
          && nxt[..] == NextUnlinked(old(nxt[..]), old(ring), k)
          && lst[..] == LastUnlinked(old(lst[..]), old(ring), k)
          && Entries() == Wake(Delete(old(Entries()), k), pid)
        else
          && r == null && ring == old(ring)
          && slot[..] == old(slot[..]) && nxt[..] == old(nxt[..]) && lst[..] == old(lst[..])
          && Entries() == old(Entries())
    {
      ghost var R, S, N, L, q := ring, slot[..], nxt[..], lst[..], Entries();
      var s := Lookup(pid);
      Kept();
      if s == NIL || s == active {
        return null;
      }
      ghost var k := FindPos(q, pid).value;
      assert k != 0 by { assert q[0].pid == 0; }
      r := RemoveAt(s, pid, k, R, S, N, L, q);
    }

    /** `sched_getPID`: the PID of the running task (0 while idle runs). */
    method GetPid() returns (pid: Word)
      requires Valid()
      ensures pid == Entries()[APos()].pid
      ensures active == 0 ==> pid == 0
    {
      pid := slot[active].pid;
    }

    /** `sched_getPCB`: the PCB of the running task, which is runnable. */
    method GetPcb() returns (p: Pcb)
      requires Valid()
      ensures p == slot[ring[APos()]] && !Blocked(EntryOf(p))
    {
      p := slot[active];
    }

    /** `sched_getPIDinactive`: writes status 0 into the running task and
     *  returns its PID. */
    method GetPidInactive() returns (pid: Word)
      requires Valid()
      modifies slot[active]
      ensures Valid()
      ensures pid == old(slot[active].pid)
      ensures Entries() == old(Entries())[APos() := old(Entries())[APos()].(status := 0)]
    {
      slot[active].status := 0;
      pid := slot[active].pid;
      ghost var a := APos();
      forall k | 0 <= k < |ring| ensures Entries()[k] == old(Entries())[a := old(Entries())[a].(status := 0)][k] {
        if k != a {
          assert ring[k] != active;
        }
      }
    }

    /** Changing nothing the pool is made of keeps it.  Only `Core` is
     *  assumed and kept, so this serves `Next`, whose outgoing task may be
     *  blocked and whose `active` has moved; `Kept` is the form for calls
     *  that change nothing at all. */
    twostate lemma Untouched()
      requires old(Core())
      requires slot == old(slot) && nxt == old(nxt) && lst == old(lst)
      requires hw == old(hw) && ring == old(ring)
      requires unchanged(slot, nxt, lst) && unchanged(old(Pcbs()))
      ensures Core() && Entries() == old(Entries())
    {
    }

    /** Changing nothing at all keeps the pool valid and every part of it,
     *  array contents included, so that value snapshots taken before a
     *  lookup still describe the pool after it. */
    twostate lemma Kept()
      requires old(Valid())
      requires slot == old(slot) && nxt == old(nxt) && lst == old(lst)
      requires hw == old(hw) && ring == old(ring) && active == old(active)
      requires unchanged(slot, nxt, lst) && unchanged(old(Pcbs()))
      ensures Valid() && Entries() == old(Entries())
      ensures slot[..] == old(slot[..]) && nxt[..] == old(nxt[..]) && lst[..] == old(lst[..])
    {
      Untouched();
    }

    /** The first half of `sched_next`: the outgoing task keeps `ticks`. */
    method StoreTicks(ticks: Word)
      requires Core() && ActiveOk()
      modifies slot[active]
      ensures Core()
      ensures Entries() == old(Entries())[APos() := old(Entries())[APos()].(ticks := ticks)]
    {
      slot[active].ticks := ticks;
      ghost var a := APos();
      forall k | 0 <= k < |ring| ensures Entries()[k] == old(Entries())[a := old(Entries())[a].(ticks := ticks)][k] {
        if k != a {
          assert ring[k] != active;
        }
      }
    }

    /** The skip loop of `sched_next`: from the slot after position `a`,
     *  along `next` past every slot whose task is blocked. */
    method NextRunnable(ghost q: seq<Entry>, ghost a: nat, from: int) returns (cur: int)
      requires Linked(ring, nxt[..], lst[..]) && |q| == |ring| && a < |ring| && from == ring[a]
      requires !Blocked(q[0])
      requires forall j :: 0 <= j < |ring| ==> 0 <= ring[j] < slot.Length
      requires forall j :: 0 <= j < |ring| ==>
        slot[ring[j]] != null && (slot[ring[j]].status == BLOCKED <==> Blocked(q[j]))
      ensures cur == ring[Advance(q, a)]
    {
      NextOf(ring, nxt[..], lst[..], a);
      cur := nxt[from];
      ghost var k := Succ(|ring|, a);
      while slot[cur].status == BLOCKED
        invariant 0 <= k < |ring| && cur == ring[k]
        invariant Scan(q, k) == Advance(q, a)
        decreases if k == 0 then 0 else |ring| - k
      {
        NextOf(ring, nxt[..], lst[..], k);
        cur := nxt[cur];
        k := Succ(|ring|, k);
      }
    }

    /** `sched_next`: stores `ticks` in the outgoing task, then moves `active`
     *  one step along the ring and on past every blocked task.  Only the
     *  idle task needs to be runnable for this to stop; the running task
     *  need not be, since `Block` marks it blocked just before. */
    method Next(ticks: Word) returns (p: Pcb)
      requires Core() && ActiveOk()
      modifies this`active, slot[active]
      ensures Valid()
      ensures var a := old(APos());
              var q := old(Entries())[a := old(Entries())[a].(ticks := ticks)];
              && Entries() == q
              && active == ring[Advance(q, a)]
      ensures p == slot[active]
    {
      ghost var a := APos();
      StoreTicks(ticks);
      label Stored:
      ghost var q := Entries();
      var cur := NextRunnable(q, a, active);
      active := cur;
      Untouched@Stored();
      p := slot[active];
    }

    /** The deadlock check of `sched_block`, from the first task with the
     *  requested PID, in slot `s` at ring position `t`, for the running task
     *  at position `a`: while the current task is blocked the walk moves to
     *  the first task with the PID it waits for (staying put when there is
     *  none), refuses when it reaches the running slot, and refuses when the
     *  counter, starting at `MAX_PCBS`, is found exhausted. */
    method Chain(s: int, ghost R: seq<int>, ghost S: seq<Pcb?>, ghost N: seq<int>, ghost L: seq<int>,
                 ghost q: seq<Entry>, ghost t: nat, ghost a: nat) returns (ok: bool)
      requires Linked(R, N, L) && R[0] == 0 && |q| == |R|
      requires slot[..] == S && nxt[..] == N && nxt.Length == |N|
      requires forall j :: 0 <= j < |R| ==> 0 <= R[j] < |S| && S[R[j]] != null && EntryOf(S[R[j]]) == q[j]
      requires a < |R| && active == R[a] && t < |R| && s == R[t]
      ensures ok <==> WaitWalk(q, t, a, MAX_PCBS) == Clear
    {
      var ptr := s;
      ghost var pp: nat := t;
      var maxCheck: Word := MAX_PCBS;
      ghost var verdict := WaitWalk(q, t, a, maxCheck);
      while slot[ptr].status == BLOCKED
        invariant pp < |R| && ptr == R[pp] && maxCheck <= MAX_PCBS
        invariant WaitWalk(q, pp, a, maxCheck) == verdict
        decreases maxCheck
      {
        assert Blocked(q[pp]) by { assert S[R[pp]] == slot[ptr]; }
        WaitWalkStep(q, pp, a, maxCheck);
        ptr := ChainHop(ptr, R, S, N, L, q, pp);
        pp := Hop(q, pp);
        if active == ptr {
          DistinctAt(R, pp, a);
          return false;
        }
        if maxCheck == 0 {
          return false;
        }
        maxCheck := maxCheck - 1;
      }
      return true;
    }

    /** One hop of the deadlock check of `sched_block`: the do-while from
     *  slot 0 along `next` looking for the first task whose PID is the one
     *  the task in slot `ptr`, at ring position `p`, waits for.  Gives that
     *  task's slot, or `ptr` itself when the walk comes back to slot 0. */
    method ChainHop(ptr: int, ghost R: seq<int>, ghost S: seq<Pcb?>, ghost N: seq<int>, ghost L: seq<int>,
                    ghost q: seq<Entry>, ghost p: nat) returns (next: int)
      requires Linked(R, N, L) && R[0] == 0 && |q| == |R|
      requires slot[..] == S && nxt[..] == N && nxt.Length == |N|
      requires forall j :: 0 <= j < |R| ==> 0 <= R[j] < |S| && S[R[j]] != null && EntryOf(S[R[j]]) == q[j]
      requires p < |R| && ptr == R[p]
      ensures next == R[Hop(q, p)]
    {
      next := ptr;
      var tmp := 0;
      ghost var k: nat := 0;
      while true
        invariant k < |R| && tmp == R[k]
        invariant forall j :: 0 <= j < k ==> q[j].pid != q[p].wait
        decreases |R| - k
      {
        if slot[tmp].pid == slot[ptr].wait {
          next := tmp;
          return;
        }
        NextOf(R, N, L, k);
        tmp := nxt[tmp];
        k := k + 1;
        if tmp == 0 {
          return;
        }
      }
    }

    /** The marking half of `sched_block`: the running task, which is not
     *  the idle one, becomes blocked waiting for `pid`. */
    method MarkBlocked(pid: Word)
      requires Core() && ActiveOk() && active != 0
      modifies slot[active]
      ensures Core()
      ensures Entries() == old(Entries())[APos() := old(Entries())[APos()].(status := BLOCKED, wait := pid)]
    {
      ghost var a := APos();
      DistinctTasks(a);
      slot[active].status := BLOCKED;
      slot[active].wait := pid;
      forall k | 0 <= k < |ring|
        ensures Entries()[k] == old(Entries())[a := old(Entries())[a].(status := BLOCKED, wait := pid)][k]
      {
        if k != a {
          assert ring[k] != active;
        }
      }
    }

    /** The accepting end of `sched_block`: the running task is marked
     *  blocked on `pid`, then `sched_next` hands over, storing `ticks`. */
    method BlockActive(ticks: Word, pid: Word) returns (p: Pcb)
      requires Valid() && active != 0
      modifies this`active, slot[active]
      ensures Valid()
      ensures var q' := BlockAt(old(Entries()), old(APos()), pid, ticks);
        && Entries() == q'
        && active == ring[Advance(q', old(APos()))]
        && p == slot[active]
    {
      ghost var q, a := Entries(), APos();
      MarkBlocked(pid);
      BlockAtInSteps(q, a, pid, ticks);
      p := Next(ticks);
    }

    /** `sched_block`: the running task asks to wait for the first task with
     *  PID `pid`.  When there is none, or the deadlock check refuses, nothing
     *  changes and the result is null; otherwise the running task is marked
     *  blocked on `pid` and `sched_next` hands over, storing `ticks`. */
    method Block(ticks: Word, pid: Word) returns (p: Pcb?)
      requires Valid() && active != 0
      modifies this`active, slot[active]
      ensures Valid()
      ensures var q, a := old(Entries()), old(APos());
        var f := FindPos(q, pid);
        if f.Some? && WaitWalk(q, f.value, a, MAX_PCBS) == Clear then
          var q' := BlockAt(q, a, pid, ticks);
          && Entries() == q'
          && active == ring[Advance(q', a)]
          && p == slot[active]
        else
          && p == null && active == old(active) && Entries() == q
    {
      ghost var q, a := Entries(), APos();
      var s := Lookup(pid);
      Kept();
      if s == NIL {
        return null;
      }
      ghost var t := FindPos(q, pid).value;
      ShapedOccupied(slot[..], hw, ring);
      var ok := Chain(s, ring, slot[..], nxt[..], lst[..], q, t, a);
      Kept();
      if !ok {
        return null;
      }
      p := BlockActive(ticks, pid);
    }
  }
}

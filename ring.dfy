/** The slot pool of the scheduler, stated on values.
 *
 *  The pool is an array of slots; each slot has a `next` and a `last` link
 *  (slot indices here).  The run queue is the ring of slots reached from
 *  slot 0 by following `next`.  A ring is described by the sequence of its
 *  slots in `next` order, starting at its root; `Linked` says that two link
 *  tables realise that sequence as a closed, doubly-linked circle.
 */
module Ring {

  datatype Option<T> = None | Some(value: T)

  /** Position after `k` in a ring of `n` positions. */
  function Succ(n: nat, k: nat): nat
    requires k < n
  {
    if k + 1 == n then 0 else k + 1
  }

  ghost predicate Distinct(ring: seq<int>)
  {
    forall a, b :: 0 <= a < b < |ring| ==> ring[a] != ring[b]
  }

  /** A slot sits at one position of a ring only. */
  lemma DistinctAt(ring: seq<int>, x: nat, y: nat)
    requires Distinct(ring) && x < |ring| && y < |ring| && ring[x] == ring[y]
    ensures x == y
  {
  }

  /** `nxt` and `lst` link the slots of `ring`, in that order, into a closed circle. */
  ghost predicate Linked(ring: seq<int>, nxt: seq<int>, lst: seq<int>)
  {
    && |ring| >= 1
    && Distinct(ring)
    && (forall k :: 0 <= k < |ring| ==> 0 <= ring[k] < |nxt| && ring[k] < |lst|)
    && (forall k :: 0 <= k < |ring| ==> nxt[ring[k]] == ring[Succ(|ring|, k)])
    && (forall k :: 0 <= k < |ring| ==> lst[ring[Succ(|ring|, k)]] == ring[k])
  }

  /** `s` with `x` placed directly after position `k`. */
  function Insert<T>(s: seq<T>, k: nat, x: T): seq<T>
    requires k < |s|
  {
    s[..k + 1] + [x] + s[k + 1..]
  }

  /** `s` without position `k`. */
  function Delete<T>(s: seq<T>, k: nat): seq<T>
    requires k < |s|
  {
    s[..k] + s[k + 1..]
  }

  /** Position of slot `x` in a ring that holds it. */
  function IndexOf(ring: seq<int>, x: int): (k: nat)
    requires x in ring
    ensures k < |ring| && ring[k] == x
    ensures forall j :: 0 <= j < k ==> ring[j] != x
  {
    if ring[0] == x then 0 else 1 + IndexOf(ring[1..], x)
  }

  lemma NextOf(ring: seq<int>, nxt: seq<int>, lst: seq<int>, k: nat)
    requires Linked(ring, nxt, lst) && k < |ring|
    ensures nxt[ring[k]] == ring[Succ(|ring|, k)]
    ensures lst[ring[Succ(|ring|, k)]] == ring[k]
  {
  }

  lemma InsertAt<T>(s: seq<T>, k: nat, x: T, j: nat)
    requires k < |s| && j <= |s|
    ensures |Insert(s, k, x)| == |s| + 1
    ensures Insert(s, k, x)[j] == if j <= k then s[j] else if j == k + 1 then x else s[j - 1]
  {
  }

  lemma DeleteAt<T>(s: seq<T>, k: nat, j: nat)
    requires k < |s| && j + 1 < |s|
    ensures |Delete(s, k)| == |s| - 1
    ensures Delete(s, k)[j] == if j < k then s[j] else s[j + 1]
  {
  }

  /** Linking a slot in after position `k` (first link the new slot to both
   *  neighbours, then point the two neighbours at it) yields a closed ring
   *  that holds exactly the old slots with the new one right after `k`. */
  lemma SpliceAfter(ring: seq<int>, nxt: seq<int>, lst: seq<int>, k: nat, s: int)
    requires Linked(ring, nxt, lst) && k < |ring|
    requires 0 <= s < |nxt| && s < |lst| && s !in ring
    ensures Linked(Insert(ring, k, s),
                   nxt[s := nxt[ring[k]]][ring[k] := s],
                   lst[s := ring[k]][nxt[ring[k]] := s])
  {
    var n := |ring|;
    var r := Insert(ring, k, s);
    var nxt', lst' := nxt[s := nxt[ring[k]]][ring[k] := s], lst[s := ring[k]][nxt[ring[k]] := s];
    InsertAt(ring, k, s, 0);
    forall x, y | 0 <= x < y < n + 1 ensures r[x] != r[y] {
      InsertAt(ring, k, s, x);
      InsertAt(ring, k, s, y);
    }
    forall j | 0 <= j < n + 1 ensures 0 <= r[j] < |nxt'| && r[j] < |lst'| {
      InsertAt(ring, k, s, j);
    }
    forall j | 0 <= j < n + 1
      ensures nxt'[r[j]] == r[Succ(n + 1, j)]
      ensures lst'[r[Succ(n + 1, j)]] == r[j]
    {
      SpliceStep(ring, nxt, lst, k, s, j);
    }
  }

  lemma SpliceStep(ring: seq<int>, nxt: seq<int>, lst: seq<int>, k: nat, s: int, j: nat)
    requires Linked(ring, nxt, lst) && k < |ring| && j < |ring| + 1
    requires 0 <= s < |nxt| && s < |lst| && s !in ring
    ensures var r := Insert(ring, k, s);
      && nxt[s := nxt[ring[k]]][ring[k] := s][r[j]] == r[Succ(|ring| + 1, j)]
      && lst[s := ring[k]][nxt[ring[k]] := s][r[Succ(|ring| + 1, j)]] == r[j]
  {
    var n := |ring|;
    var r := Insert(ring, k, s);
    var a, b := ring[k], ring[Succ(n, k)];
    var j' := Succ(n + 1, j);
    InsertAt(ring, k, s, j);
    InsertAt(ring, k, s, j');
    if j < k {
      SpliceStepBefore(ring, nxt, lst, k, s, j);
    } else if j == k {
      assert r[j] == a && r[j'] == s;
    } else if j == k + 1 {
      assert r[j] == s && r[j'] == b;
    } else {
      SpliceStepAfter(ring, nxt, lst, k, s, j);
    }
  }

  lemma SpliceStepBefore(ring: seq<int>, nxt: seq<int>, lst: seq<int>, k: nat, s: int, j: nat)
    requires Linked(ring, nxt, lst) && j < k < |ring|
    requires 0 <= s < |nxt| && s < |lst| && s !in ring
    ensures nxt[s := nxt[ring[k]]][ring[k] := s][ring[j]] == ring[j + 1]
    ensures lst[s := ring[k]][nxt[ring[k]] := s][ring[j + 1]] == ring[j]
  {
    var n := |ring|;
    assert Succ(n, j) == j + 1 && Succ(n, k) != j + 1;
    assert ring[j] != ring[k] && ring[j] != s;
    assert nxt[ring[k]] == ring[Succ(n, k)];
    assert ring[j + 1] != ring[Succ(n, k)] && ring[j + 1] != s;
  }

  lemma SpliceStepAfter(ring: seq<int>, nxt: seq<int>, lst: seq<int>, k: nat, s: int, j: nat)
    requires Linked(ring, nxt, lst) && k + 1 < j <= |ring|
    requires 0 <= s < |nxt| && s < |lst| && s !in ring
    ensures nxt[s := nxt[ring[k]]][ring[k] := s][ring[j - 1]] == ring[Succ(|ring|, j - 1)]
    ensures lst[s := ring[k]][nxt[ring[k]] := s][ring[Succ(|ring|, j - 1)]] == ring[j - 1]
  {
    var n := |ring|;
    assert ring[j - 1] != ring[k] && ring[j - 1] != s;
    assert Succ(n, j - 1) != Succ(n, k);
    assert nxt[ring[k]] == ring[Succ(n, k)];
    assert ring[Succ(n, j - 1)] != ring[Succ(n, k)] && ring[Succ(n, j - 1)] != s;
  }

  /** The `next` links once position `k` is unlinked: its predecessor
   *  points to its successor. */
  function NextUnlinked(nxt: seq<int>, ring: seq<int>, k: nat): seq<int>
    requires 0 < k < |ring| && 0 <= ring[k - 1] < |nxt|
  {
    nxt[ring[k - 1] := ring[Succ(|ring|, k)]]
  }

  /** The `last` links once position `k` is unlinked: its successor points
   *  back to its predecessor. */
  function LastUnlinked(lst: seq<int>, ring: seq<int>, k: nat): seq<int>
    requires 0 < k < |ring| && 0 <= ring[Succ(|ring|, k)] < |lst|
  {
    lst[ring[Succ(|ring|, k)] := ring[k - 1]]
  }

  /** Unlinking position `k` (pointing its predecessor and its successor at
   *  each other) yields a closed ring without exactly that slot. */
  lemma Unlink(ring: seq<int>, nxt: seq<int>, lst: seq<int>, k: nat)
    requires Linked(ring, nxt, lst) && 0 < k < |ring|
    ensures Linked(Delete(ring, k),
                   nxt[ring[k - 1] := ring[Succ(|ring|, k)]],
                   lst[ring[Succ(|ring|, k)] := ring[k - 1]])
  {
    var n := |ring|;
    var r := Delete(ring, k);
    var nxt', lst' := nxt[ring[k - 1] := ring[Succ(n, k)]], lst[ring[Succ(n, k)] := ring[k - 1]];
    DeleteAt(ring, k, 0);
    forall x, y | 0 <= x < y < n - 1 ensures r[x] != r[y] {
      DeleteAt(ring, k, x);
      DeleteAt(ring, k, y);
    }
    forall j | 0 <= j < n - 1 ensures 0 <= r[j] < |nxt'| && r[j] < |lst'| {
      DeleteAt(ring, k, j);
    }
    forall j | 0 <= j < n - 1
      ensures nxt'[r[j]] == r[Succ(n - 1, j)]
      ensures lst'[r[Succ(n - 1, j)]] == r[j]
    {
      UnlinkStep(ring, nxt, lst, k, j);
    }
  }

  lemma UnlinkStep(ring: seq<int>, nxt: seq<int>, lst: seq<int>, k: nat, j: nat)
    requires Linked(ring, nxt, lst) && 0 < k < |ring| && j + 1 < |ring|
    ensures var r := Delete(ring, k);
      && nxt[ring[k - 1] := ring[Succ(|ring|, k)]][r[j]] == r[Succ(|ring| - 1, j)]
      && lst[ring[Succ(|ring|, k)] := ring[k - 1]][r[Succ(|ring| - 1, j)]] == r[j]
  {
    var n := |ring|;
    var a, b := ring[k - 1], ring[Succ(n, k)];
    DeleteAt(ring, k, j);
    DeleteAt(ring, k, Succ(n - 1, j));
    if j < k - 1 {
      assert ring[j] != a;
      assert Succ(n, j) == j + 1 && Succ(n, k) != j + 1;
      assert ring[j + 1] != b;
    } else if j == k - 1 {
      assert Succ(n, k - 1) == k;
      if k == n - 1 {
        assert Succ(n, k) == 0;
      } else {
        assert Succ(n, k) == k + 1;
      }
    } else {
      assert ring[j + 1] != a;
      assert Succ(n, j + 1) != Succ(n, k);
      assert ring[Succ(n, j + 1)] != b;
    }
  }

  /** Slot reached from `s` after following `n` forward links. */
  function Follow(nxt: seq<int>, s: int, n: nat): int
    decreases n
  {
    if n == 0 || !(0 <= s < |nxt|) then s else Follow(nxt, nxt[s], n - 1)
  }

  /** Slot reached from `s` after following `n` backward links. */
  function FollowBack(lst: seq<int>, s: int, n: nat): int
    decreases n
  {
    if n == 0 || !(0 <= s < |lst|) then s else FollowBack(lst, lst[s], n - 1)
  }

  lemma {:induction false} FollowSplit(nxt: seq<int>, s: int, a: nat, b: nat)
    ensures Follow(nxt, s, a + b) == Follow(nxt, Follow(nxt, s, a), b)
    decreases a
  {
    if a > 0 && 0 <= s < |nxt| {
      FollowSplit(nxt, nxt[s], a - 1, b);
    }
  }

  lemma {:induction false} FollowBackSplit(lst: seq<int>, s: int, a: nat, b: nat)
    ensures FollowBack(lst, s, a + b) == FollowBack(lst, FollowBack(lst, s, a), b)
    decreases a
  {
    if a > 0 && 0 <= s < |lst| {
      FollowBackSplit(lst, lst[s], a - 1, b);
    }
  }

  /** `Follow` walks the ring in order: `m` steps forward from position `k`
   *  reach position `k + m` while that stays inside the ring. */
  lemma {:induction false} FollowRing(ring: seq<int>, nxt: seq<int>, lst: seq<int>, k: nat, m: nat)
    requires Linked(ring, nxt, lst) && k + m < |ring|
    ensures Follow(nxt, ring[k], m) == ring[k + m]
    decreases m
  {
    if m > 0 {
      NextOf(ring, nxt, lst, k);
      FollowRing(ring, nxt, lst, k + 1, m - 1);
    }
  }

  /** `FollowBack` walks the ring in reverse: `m` steps back from position
   *  `k` reach position `k - m` while that stays inside the ring. */
  lemma {:induction false} FollowBackRing(ring: seq<int>, nxt: seq<int>, lst: seq<int>, k: nat, m: nat)
    requires Linked(ring, nxt, lst) && m <= k < |ring|
    ensures FollowBack(lst, ring[k], m) == ring[k - m]
    decreases m
  {
    if m > 0 {
      NextOf(ring, nxt, lst, k - 1);
      FollowBackRing(ring, nxt, lst, k - 1, m - 1);
    }
  }

  /** Closure of the ring: from any slot of the ring, as many steps forward,
   *  or as many backward, as the ring has slots lead back to that slot, and
   *  the walk forward from the root meets the slots of the ring in order. */
  lemma RingClosed(ring: seq<int>, nxt: seq<int>, lst: seq<int>)
    requires Linked(ring, nxt, lst)
    ensures forall k :: 0 <= k < |ring| ==> Follow(nxt, ring[k], |ring|) == ring[k]
    ensures forall k :: 0 <= k < |ring| ==> FollowBack(lst, ring[k], |ring|) == ring[k]
    ensures forall j :: 0 <= j < |ring| ==> Follow(nxt, ring[0], j) == ring[j]
  {
    var n := |ring|;
    forall k | 0 <= k < n
      ensures Follow(nxt, ring[k], n) == ring[k]
      ensures FollowBack(lst, ring[k], n) == ring[k]
      ensures Follow(nxt, ring[0], k) == ring[k]
    {
      FollowRing(ring, nxt, lst, 0, k);
      // forward: to the last slot, one link to the root, then on to k
      FollowRing(ring, nxt, lst, k, n - 1 - k);
      NextOf(ring, nxt, lst, n - 1);
      FollowSplit(nxt, ring[k], n - 1 - k, 1);
      FollowSplit(nxt, ring[k], n - k, k);
      // backward: to the root, one link to the last slot, then back to k
      FollowBackRing(ring, nxt, lst, k, k);
      NextOf(ring, nxt, lst, n - 1);
      FollowBackRing(ring, nxt, lst, n - 1, n - 1 - k);
      FollowBackSplit(lst, ring[k], k, 1);
      FollowBackSplit(lst, ring[k], k + 1, n - 1 - k);
    }
  }

  /** Neither walk from the root comes back to it before it has gone once
   *  round the ring. */
  lemma RingFirstReturn(ring: seq<int>, nxt: seq<int>, lst: seq<int>)
    requires Linked(ring, nxt, lst)
    ensures forall j :: 0 < j < |ring| ==> Follow(nxt, ring[0], j) != ring[0]
    ensures forall j :: 0 < j < |ring| ==> FollowBack(lst, ring[0], j) != ring[0]
  {
    var n := |ring|;
    forall j | 0 < j < n
      ensures Follow(nxt, ring[0], j) != ring[0]
      ensures FollowBack(lst, ring[0], j) != ring[0]
    {
      FollowRing(ring, nxt, lst, 0, j);
      assert ring[0] != ring[j];
      NextOf(ring, nxt, lst, n - 1);
      FollowBackRing(ring, nxt, lst, n - 1, j - 1);
      assert ring[0] != ring[n - j];
    }
  }

  /** Some walk of fewer than `n` steps forward from `s` reaches `x`. */
  ghost predicate Reached(nxt: seq<int>, s: int, n: nat, x: int)
  {
    exists j :: 0 <= j < n && Follow(nxt, s, j) == x
  }

  /** The walk forward from the root meets exactly the slots of the ring. */
  lemma RingCovers(ring: seq<int>, nxt: seq<int>, lst: seq<int>)
    requires Linked(ring, nxt, lst)
    ensures forall x :: x in ring <==> Reached(nxt, ring[0], |ring|, x)
  {
    RingClosed(ring, nxt, lst);
    forall x ensures x in ring <==> Reached(nxt, ring[0], |ring|, x) {
      if x in ring {
        var j := IndexOf(ring, x);
        assert Follow(nxt, ring[0], j) == x;
      }
      if Reached(nxt, ring[0], |ring|, x) {
        var j :| 0 <= j < |ring| && Follow(nxt, ring[0], j) == x;
        assert ring[j] == x;
      }
    }
  }

  /** The lowest index in `[lo, hi)` whose slot is not in use, or `hi`
   *  when every slot there is. */
  function FirstFree(used: seq<bool>, lo: nat, hi: nat): (r: nat)
    requires lo <= hi <= |used|
    ensures lo <= r <= hi
    ensures forall i :: lo <= i < r ==> used[i]
    ensures r < hi ==> !used[r]
    decreases hi - lo
  {
    if lo == hi || !used[lo] then lo else FirstFree(used, lo + 1, hi)
  }

  /** The slot an admission takes, given which slots are in use and the
   *  high-water mark `hw` (0: nothing was ever admitted).  The first
   *  admission takes slot 1; later ones reuse the lowest free slot below
   *  `hw`, else take slot `hw` if it exists; `None` when the pool is full. */
  function Placement(used: seq<bool>, hw: nat): (r: Option<nat>)
    requires |used| >= 2 && (hw == 0 || 2 <= hw <= |used|)
    ensures r.Some? ==> 1 <= r.value < |used| && (r.value < hw ==> !used[r.value])
    ensures r.None? <==> hw == |used| && forall i :: 1 <= i < hw ==> used[i]
  {
    if hw == 0 then Some(1)
    else if FirstFree(used, 1, hw) < hw then Some(FirstFree(used, 1, hw))
    else if hw < |used| then Some(hw)
    else None
  }

  /** High-water mark after an admission into slot `s`: the first admission
   *  leaves it past the idle slot and slot 1; later ones leave it the least
   *  value that is at least the old mark and above `s`. */
  function RaisedMark(hw: nat, s: nat): (m: nat)
    ensures hw <= m
    ensures hw == 0 ==> m == 2
    ensures 0 < hw && s <= hw ==> s < m && (m == hw || m == s + 1)
  {
    if hw == 0 then 2 else if s == hw then hw + 1 else hw
  }

  /** Reuse before growth: as long as no slot at or above the high-water
   *  mark is in use, an admission takes exactly the lowest free slot other
   *  than the idle slot 0, fails exactly when slots 1 .. |used|-1 are all in
   *  use, and leaves the mark one past the highest slot used so far. */
  lemma PlacementIsLowestFree(used: seq<bool>, hw: nat)
    requires |used| >= 2 && (hw == 0 || 2 <= hw <= |used|)
    requires forall i :: (if hw == 0 then 1 else hw) <= i < |used| ==> !used[i]
    ensures Placement(used, hw).None? <==> forall i :: 1 <= i < |used| ==> used[i]
    ensures Placement(used, hw).Some? ==>
      var s := Placement(used, hw).value;
      && 1 <= s < |used| && !used[s]
      && (forall i :: 1 <= i < s ==> used[i])
      && RaisedMark(hw, s) == (if hw == 0 then s + 1 else if s < hw then hw else s + 1)
  {
    if hw == 0 {
      assert !used[1];
    } else {
      var f := FirstFree(used, 1, hw);
      if f == hw && hw < |used| {
        assert !used[hw];
      }
      if f < hw {
        assert !used[f];
      }
    }
  }
}

/// Model of the idle-connection timer (code/timer/heaptimer.h, code/timer/heaptimer.cpp).
///
/// An indexed binary min-heap of timer nodes, in array layout (the children of
/// slot k are 2k+1 and 2k+2), with a side map from node id to heap slot.  The
/// clock is an integer number of milliseconds passed in by the caller, and a
/// callback is an integer handle: running it appends the node to a log.

module HeapTimers {

  import opened Wrappers

  /** A timer: the connection id, its absolute expiry in milliseconds and its callback handle. */
  datatype TimerNode = TimerNode(id: int, expires: int, cb: int)

  /** `TimerNode::operator<`: nodes are ordered by expiry alone. */
  predicate Less(a: TimerNode, b: TimerNode)
  {
    a.expires < b.expires
  }

  /** Slot `c` is a child of slot `p`: the children of slot p are 2p+1 and 2p+2. */
  predicate IsChild(p: int, c: int)
  {
    c == 2 * p + 1 || c == 2 * p + 2
  }

  /** Min-heap order on the slots below `n`, except on the edges leaving slot `skipParent`
      and the edge entering slot `skipChild` (pass -1 to skip nothing). */
  ghost predicate OrderedExcept(h: seq<TimerNode>, n: nat, skipParent: int, skipChild: int)
    requires n <= |h|
  {
    forall p, c {:trigger IsChild(p, c)} :: 0 <= p < c < n && IsChild(p, c) && p != skipParent && c != skipChild ==>
      h[p].expires <= h[c].expires
  }

  /** Min-heap order on the slots below `n`: no node expires before its parent. */
  ghost predicate HeapOrdered(h: seq<TimerNode>, n: nat)
    requires n <= |h|
  {
    OrderedExcept(h, n, -1, -1)
  }

  /** The parent of slot `x` expires no later than the children of `x`, so that the node at
      `x` may be replaced by either without breaking the order above it. */
  ghost predicate ParentBeforeChildren(h: seq<TimerNode>, n: nat, x: nat)
    requires n <= |h| && x < |h|
  {
    x > 0 ==>
      && (2 * x + 1 < n ==> h[(x - 1) / 2].expires <= h[2 * x + 1].expires)
      && (2 * x + 2 < n ==> h[(x - 1) / 2].expires <= h[2 * x + 2].expires)
  }

  /** `std::swap` of two slots. */
  function Swap(h: seq<TimerNode>, i: nat, j: nat): (r: seq<TimerNode>)
    requires i < |h| && j < |h|
    ensures |r| == |h| && r[i] == h[j] && r[j] == h[i]
    ensures forall k :: 0 <= k < |h| && k != i && k != j ==> r[k] == h[k]
  {
    h[i := h[j]][j := h[i]]
  }

  /** One step of sifting up: when the node at `i` does not expire after its parent, swapping
      the two moves the only possibly broken edge up to the parent. */
  lemma {:induction false} SiftUpStep(h: seq<TimerNode>, n: nat, i: nat)
    requires 0 < i < n <= |h|
    requires OrderedExcept(h, n, -1, i) && ParentBeforeChildren(h, n, i)
    requires h[i].expires <= h[(i - 1) / 2].expires
    ensures OrderedExcept(Swap(h, i, (i - 1) / 2), n, -1, (i - 1) / 2)
    ensures ParentBeforeChildren(Swap(h, i, (i - 1) / 2), n, (i - 1) / 2)
  {
    var j := (i - 1) / 2;
    var r := Swap(h, i, j);
    forall p, c | 0 <= p < c < n && IsChild(p, c) && c != j
      ensures r[p].expires <= r[c].expires
    {
      if c == i {
        assert p == j;
      } else if p == j {
        // c is the sibling of i, and r[j] is h[i]
        assert h[j].expires <= h[c].expires;
      }
    }
    if j > 0 {
      var g := (j - 1) / 2;
      assert IsChild(g, j);
      if 2 * j + 1 < n && 2 * j + 1 != i {
        assert IsChild(j, 2 * j + 1);
      }
      if 2 * j + 2 < n && 2 * j + 2 != i {
        assert IsChild(j, 2 * j + 2);
      }
    }
  }

  /** One step of sifting down: swapping the node at `i` with its earlier child `j`, when
      that child does not expire after it, moves the broken edges down to `j`. */
  lemma {:induction false} SiftDownStep(h: seq<TimerNode>, n: nat, index: nat, i: nat, j: nat)
    requires index <= i < j < n <= |h| && IsChild(i, j)
    requires OrderedExcept(h, n, i, if i == index then index else -1) && ParentBeforeChildren(h, n, i)
    requires j == 2 * i + 2 ==> h[j].expires <= h[2 * i + 1].expires
    requires j == 2 * i + 1 && j + 1 < n ==> h[j].expires <= h[j + 1].expires
    requires h[j].expires <= h[i].expires
    ensures OrderedExcept(Swap(h, i, j), n, j, -1)
    ensures ParentBeforeChildren(Swap(h, i, j), n, j)
  {
    var r := Swap(h, i, j);
    forall p, c | 0 <= p < c < n && IsChild(p, c) && p != j
      ensures r[p].expires <= r[c].expires
    {
      if c == i {
        assert p == (i - 1) / 2;
      }
    }
    if 2 * j + 1 < n {
      assert IsChild(j, 2 * j + 1);
    }
    if 2 * j + 2 < n {
      assert IsChild(j, 2 * j + 2);
    }
  }

  /** Sifting down stops once the node at `i` expires no later than its children: the
      edges leaving `i` then hold as well. */
  lemma SiftDownDone(h: seq<TimerNode>, n: nat, i: nat, skip: int)
    requires n <= |h| && i < |h| && OrderedExcept(h, n, i, skip)
    requires 2 * i + 1 < n ==> h[i].expires <= h[2 * i + 1].expires
    requires 2 * i + 2 < n ==> h[i].expires <= h[2 * i + 2].expires
    ensures OrderedExcept(h, n, -1, skip)
  {
  }

  /** Replacing the node in slot `i` of a heap ordered below `n` can only break the edges at
      `i`, and the old node's parent still expires no later than its children. */
  lemma ReplaceSlot(h: seq<TimerNode>, r: seq<TimerNode>, n: nat, i: nat)
    requires i < n <= |h| == |r| && HeapOrdered(h, n)
    requires forall k :: 0 <= k < n && k != i ==> r[k] == h[k]
    ensures OrderedExcept(r, n, i, i) && ParentBeforeChildren(r, n, i)
  {
    if i > 0 {
      assert IsChild((i - 1) / 2, i);
      if 2 * i + 1 < n {
        assert IsChild(i, 2 * i + 1);
      }
      if 2 * i + 2 < n {
        assert IsChild(i, 2 * i + 2);
      }
    }
  }

  /** Order below `n + 1` implies order below `n`. */
  lemma OrderedPrefix(h: seq<TimerNode>, n: nat)
    requires n < |h| && HeapOrdered(h, n + 1)
    ensures HeapOrdered(h, n)
  {
  }

  /** `ref` is the exact inverse of the heap positions: every node's id maps to the node's
      slot, and every mapped id sits at the slot it maps to. */
  ghost predicate RefInverse(h: seq<TimerNode>, ref: map<int, nat>)
  {
    && (forall k :: 0 <= k < |h| ==> h[k].id in ref && ref[h[k].id] == k)
    && (forall id :: id in ref ==> ref[id] < |h| && h[ref[id]].id == id)
  }

  /** The timers a heap holds, by id. */
  ghost function Entries(h: seq<TimerNode>, ref: map<int, nat>): map<int, TimerNode>
    requires RefInverse(h, ref)
  {
    map id | id in ref :: h[ref[id]]
  }

  /** Swapping two slots and re-registering both ids keeps `ref` the inverse of the slots
      and keeps the timers held. */
  lemma SwapKeepsEntries(h: seq<TimerNode>, ref: map<int, nat>, i: nat, j: nat)
    requires i < |h| && j < |h| && RefInverse(h, ref)
    ensures var h' := Swap(h, i, j);
            var ref' := ref[h'[i].id := i][h'[j].id := j];
            RefInverse(h', ref') && Entries(h', ref') == Entries(h, ref)
  {
    var h' := Swap(h, i, j);
    var ref' := ref[h'[i].id := i][h'[j].id := j];
    forall id | id in ref'
      ensures id in ref && ref'[id] < |h'| && h'[ref'[id]] == h[ref[id]]
    {
    }
  }

  /** The timers of `m` that have not expired at `now`. */
  ghost function Unexpired(m: map<int, TimerNode>, now: int): map<int, TimerNode>
  {
    map id | id in m && m[id].expires > now :: m[id]
  }

  /** A remaining wait, with an overdue deadline counting as no wait at all. */
  function ClampToZero(ms: int): nat
  {
    if ms < 0 then 0 else ms
  }

  /** The ids of a sequence of nodes. */
  ghost function Ids(s: seq<TimerNode>): set<int>
  {
    set k | 0 <= k < |s| :: s[k].id
  }

  /** Appending a node adds its id. */
  lemma IdsAppend(s: seq<TimerNode>, node: TimerNode)
    ensures Ids(s + [node]) == Ids(s) + {node.id}
  {
    assert (s + [node])[|s|] == node;
    forall id | id in Ids(s)
      ensures id in Ids(s + [node])
    {
      var k :| 0 <= k < |s| && s[k].id == id;
      assert (s + [node])[k] == s[k];
    }
  }

  /** A sub-map that keeps exactly the timers of `before` not expired at `now` is
      `Unexpired(before, now)`. */
  lemma UnexpiredExact(before: map<int, TimerNode>, after: map<int, TimerNode>, now: int)
    requires forall id :: id in after ==> id in before && after[id] == before[id]
    requires forall id :: id in before && id !in after ==> before[id].expires <= now
    requires forall id :: id in after ==> after[id].expires > now
    ensures after == Unexpired(before, now)
  {
    var u := Unexpired(before, now);
    forall id | id in u
      ensures id in after
    {
      assert before[id].expires > now;
    }
    forall id | id in after
      ensures id in u && u[id] == after[id]
    {
      assert before[id].expires > now;
    }
    assert after.Keys == u.Keys;
  }

  /** The root of an ordered heap expires no later than any node. */
  lemma {:induction false} RootIsMinimum(h: seq<TimerNode>, k: nat)
    requires HeapOrdered(h, |h|) && k < |h|
    ensures h[0].expires <= h[k].expires
    decreases k
  {
    if k > 0 {
      assert IsChild((k - 1) / 2, k);
      RootIsMinimum(h, (k - 1) / 2);
    }
  }

  /** Replacing the node in a slot by a node with the same id replaces that timer. */
  lemma EntriesReplace(h: seq<TimerNode>, ref: map<int, nat>, i: nat, node: TimerNode)
    requires RefInverse(h, ref) && i < |h| && node.id == h[i].id
    ensures RefInverse(h[i := node], ref)
    ensures Entries(h[i := node], ref) == Entries(h, ref)[node.id := node]
  {
    var e := Entries(h[i := node], ref);
    forall id | id in ref
      ensures e[id] == Entries(h, ref)[node.id := node][id]
    {
      if id == node.id {
        assert ref[id] == i;
      }
    }
  }

  /** Appending a node with a fresh id, registered at the new slot, adds that timer. */
  lemma EntriesAppend(h: seq<TimerNode>, ref: map<int, nat>, node: TimerNode)
    requires RefInverse(h, ref) && node.id !in ref
    ensures RefInverse(h + [node], ref[node.id := |h|])
    ensures Entries(h + [node], ref[node.id := |h|]) == Entries(h, ref)[node.id := node]
  {
    var h', ref' := h + [node], ref[node.id := |h|];
    var e := Entries(h', ref');
    forall id | id in ref'
      ensures e[id] == Entries(h, ref)[node.id := node][id]
    {
    }
  }

  /** Dropping the last slot and unregistering its id removes that timer. */
  lemma EntriesDropLast(h: seq<TimerNode>, ref: map<int, nat>)
    requires RefInverse(h, ref) && |h| > 0
    ensures RefInverse(h[..|h| - 1], ref - {h[|h| - 1].id})
    ensures Entries(h[..|h| - 1], ref - {h[|h| - 1].id}) == Entries(h, ref) - {h[|h| - 1].id}
  {
    var h', ref' := h[..|h| - 1], ref - {h[|h| - 1].id};
    forall id | id in ref'
      ensures ref'[id] < |h'| && h'[ref'[id]].id == id
    {
    }
    var e := Entries(h', ref');
    forall id | id in ref'
      ensures e[id] == (Entries(h, ref) - {h[|h| - 1].id})[id]
    {
    }
  }

  /** Dropping the last slot `n` of a heap ordered below it, and unregistering its id,
      leaves a valid heap without that timer. */
  lemma DropLastSlot(h: seq<TimerNode>, ref: map<int, nat>, n: nat)
    requires RefInverse(h, ref) && n + 1 == |h| && HeapOrdered(h, n)
    ensures RefInverse(h[..n], ref - {h[n].id}) && HeapOrdered(h[..n], n)
    ensures Entries(h[..n], ref - {h[n].id}) == Entries(h, ref) - {h[n].id}
  {
    EntriesDropLast(h, ref);
    assert forall k :: 0 <= k < n ==> h[..n][k] == h[k];
  }

  /** No id occurs twice in `s`. */
  ghost predicate DistinctIds(s: seq<TimerNode>)
  {
    forall a, b :: 0 <= a < b < |s| ==> s[a].id != s[b].id
  }

  /** What a tick has done so far, from the timers `t0` to the timers `t`: `fired` lists,
      earliest first and each once, the timers of `t0` that are no longer in `t`; each had expired at
      `now` and expires no later than any timer left; the timers left are unchanged. */
  ghost predicate Fired(t0: map<int, TimerNode>, t: map<int, TimerNode>, fired: seq<TimerNode>, now: int)
  {
    && (forall id :: id in t ==> id in t0 && t[id] == t0[id])
    && Ids(fired) == t0.Keys - t.Keys
    && DistinctIds(fired)
    && (forall k :: 0 <= k < |fired| ==>
          fired[k].id in t0 && t0[fired[k].id] == fired[k] && fired[k].expires <= now)
    && (forall a, b :: 0 <= a < b < |fired| ==> fired[a].expires <= fired[b].expires)
    && (forall k, id :: 0 <= k < |fired| && id in t ==> fired[k].expires <= t[id].expires)
  }

  /** Firing an expired timer that expires no later than any other keeps the record. */
  lemma FiredOneMore(t0: map<int, TimerNode>, t: map<int, TimerNode>, fired: seq<TimerNode>, now: int, node: TimerNode)
    requires Fired(t0, t, fired, now)
    requires node.id in t && t[node.id] == node && node.expires <= now
    requires forall id :: id in t ==> node.expires <= t[id].expires
    ensures Fired(t0, t - {node.id}, fired + [node], now)
  {
    IdsAppend(fired, node);
    var f := fired + [node];
    assert forall k :: 0 <= k < |fired| ==> f[k] == fired[k];
    forall k | 0 <= k < |fired|
      ensures fired[k].id != node.id
    {
      assert fired[k].id in Ids(fired);
    }
  }

  /** When every timer left is still pending, the timers left are the unexpired ones. */
  lemma FiredAll(t0: map<int, TimerNode>, t: map<int, TimerNode>, fired: seq<TimerNode>, now: int)
    requires Fired(t0, t, fired, now)
    requires forall id :: id in t ==> t[id].expires > now
    ensures t == Unexpired(t0, now)
  {
    forall id | id in t0 && id !in t
      ensures t0[id].expires <= now
    {
      assert id in Ids(fired);
      var k :| 0 <= k < |fired| && fired[k].id == id;
    }
    UnexpiredExact(t0, t, now);
  }

  /** An empty heap holds no timer. */
  lemma EmptyHeapHoldsNothing(ref: map<int, nat>)
    requires RefInverse([], ref)
    ensures Entries([], ref) == map[]
  {
    var e := Entries([], ref);
    assert forall id :: id !in e;
    assert e.Keys == {};
  }

  class HeapTimer {
    var heap: seq<TimerNode>
    var ref: map<int, nat>
    /** The nodes whose callbacks have run, oldest first. */
    var fired: seq<TimerNode>

    ghost predicate Valid()
      reads this
    {
      RefInverse(heap, ref) && HeapOrdered(heap, |heap|)
    }

    /** The timers held, by id. */
    ghost function Timers(): map<int, TimerNode>
      reads this
      requires RefInverse(heap, ref)
    {
      Entries(heap, ref)
    }

    /** A new timer holds no node (reserving capacity is not observable). */
    constructor ()
      ensures Valid() && heap == [] && ref == map[] && fired == []
    {
      heap := [];
      ref := map[];
      fired := [];
    }

    /** Swaps two slots and re-registers both ids at their new slots. */
    method SwapNode(i: nat, j: nat)
      requires i < |heap| && j < |heap| && RefInverse(heap, ref)
      modifies this
      ensures heap == Swap(old(heap), i, j)
      ensures RefInverse(heap, ref) && Entries(heap, ref) == old(Entries(heap, ref))
      ensures fired == old(fired)
    {
      SwapKeepsEntries(heap, ref, i, j);
      heap := Swap(heap, i, j);
      ref := ref[heap[i].id := i][heap[j].id := j];
    }

    /** Moves the node at `index` towards the root while it does not expire strictly after
        its parent.  The loop stops at the root (see the Findings about the source's test).
        Only the slots below `n` take part; the slots from `n` on are not touched. */
    method SiftUp(index: nat, ghost n: nat)
      requires index < n <= |heap| && RefInverse(heap, ref)
      requires OrderedExcept(heap, n, -1, index) && ParentBeforeChildren(heap, n, index)
      modifies this
      ensures |heap| == old(|heap|) && heap[n..] == old(heap[n..])
      ensures HeapOrdered(heap, n) && RefInverse(heap, ref)
      ensures Entries(heap, ref) == old(Entries(heap, ref)) && fired == old(fired)
    {
      var i: nat := index;
      while i > 0
        invariant i < n && |heap| == old(|heap|) && heap[n..] == old(heap[n..])
        invariant RefInverse(heap, ref) && Entries(heap, ref) == old(Entries(heap, ref)) && fired == old(fired)
        invariant OrderedExcept(heap, n, -1, i) && ParentBeforeChildren(heap, n, i)
      {
        var j: nat := (i - 1) / 2;
        if Less(heap[j], heap[i]) {
          assert IsChild(j, i);
          break;
        }
        SiftUpStep(heap, n, i);
        SwapNode(i, j);
        i := j;
      }
    }

    /** Moves the node at `index` away from the root, within the slots below `n`, while it
        does not expire strictly before its earlier child; reports whether it moved. */
    method SiftDown(index: nat, n: nat) returns (moved: bool)
      requires index < |heap| && n <= |heap| && RefInverse(heap, ref)
      requires OrderedExcept(heap, n, index, index) && ParentBeforeChildren(heap, n, index)
      modifies this
      ensures |heap| == old(|heap|) && heap[n..] == old(heap[n..])
      ensures RefInverse(heap, ref) && Entries(heap, ref) == old(Entries(heap, ref)) && fired == old(fired)
      ensures OrderedExcept(heap, n, -1, if moved then -1 else index)
      ensures moved <==> heap[index] != old(heap[index])
      ensures !moved ==> heap == old(heap) && ref == old(ref)
    {
      var i: nat := index;
      var j: nat := 2 * i + 1;
      while j < n
        invariant index <= i < |heap| && (i == index || i < n) && j == 2 * i + 1
        invariant |heap| == old(|heap|) && heap[n..] == old(heap[n..])
        invariant RefInverse(heap, ref) && Entries(heap, ref) == old(Entries(heap, ref)) && fired == old(fired)
        invariant i == index ==> heap == old(heap) && ref == old(ref)
        invariant i > index ==> heap[index] != old(heap[index])
        invariant OrderedExcept(heap, n, i, if i == index then index else -1) && ParentBeforeChildren(heap, n, i)
      {
        if j + 1 < n && Less(heap[j + 1], heap[j]) {
          j := j + 1;
        }
        if Less(heap[i], heap[j]) {
          break;
        }
        SwapDown(index, i, j, n);
        i := j;
        j := 2 * i + 1;
      }
      SiftDownDone(heap, n, i, if i == index then index else -1);
      moved := i > index;
    }

    /** One swap of sifting down, from slot `i` to its earlier child `j`. */
    method SwapDown(ghost index: nat, i: nat, j: nat, n: nat)
      requires index <= i < j < n <= |heap| && IsChild(i, j) && RefInverse(heap, ref)
      requires OrderedExcept(heap, n, i, if i == index then index else -1) && ParentBeforeChildren(heap, n, i)
      requires j == 2 * i + 2 ==> heap[j].expires <= heap[2 * i + 1].expires
      requires j == 2 * i + 1 && j + 1 < n ==> heap[j].expires <= heap[j + 1].expires
      requires heap[j].expires <= heap[i].expires
      modifies this
      ensures |heap| == old(|heap|) && heap[n..] == old(heap[n..])
      ensures RefInverse(heap, ref) && Entries(heap, ref) == old(Entries(heap, ref)) && fired == old(fired)
      ensures OrderedExcept(heap, n, j, -1) && ParentBeforeChildren(heap, n, j)
      ensures index < i ==> heap[index] == old(heap[index])
      ensures heap[i] != old(heap[i])
    {
      SiftDownStep(heap, n, index, i, j);
      SwapNode(i, j);
    }

    /** Restores the order below `n` around a slot `i` whose node was replaced: sift down,
        and sift up when the node did not move down. */
    method Resift(i: nat, n: nat)
      requires i < n <= |heap| && RefInverse(heap, ref)
      requires OrderedExcept(heap, n, i, i) && ParentBeforeChildren(heap, n, i)
      modifies this
      ensures |heap| == old(|heap|) && heap[n..] == old(heap[n..])
      ensures HeapOrdered(heap, n) && RefInverse(heap, ref)
      ensures Entries(heap, ref) == old(Entries(heap, ref)) && fired == old(fired)
    {
      var moved := SiftDown(i, n);
      if !moved {
        SiftUp(i, n);
      }
    }

    /** Schedules timer `id` to expire `timeout` milliseconds after `now` with callback `cb`:
        a new id is inserted, a known id has its expiry and callback replaced. */
    method Add(id: int, timeout: int, cb: int, now: int)
      requires Valid() && id >= 0
      modifies this
      ensures Valid() && fired == old(fired)
      ensures Timers() == old(Timers())[id := TimerNode(id, now + timeout, cb)]
      ensures |heap| == old(|heap|) + (if id in old(ref) then 0 else 1)
    {
      var node := TimerNode(id, now + timeout, cb);
      if id !in ref {
        var i := |heap|;
        EntriesAppend(heap, ref, node);
        ref := ref[id := i];
        heap := heap + [node];
        SiftUp(i, |heap|);
      } else {
        var i := ref[id];
        EntriesReplace(heap, ref, i, node);
        ghost var before := heap;
        heap := heap[i := node];
        ReplaceSlot(before, heap, |heap|, i);
        Resift(i, |heap|);
      }
    }

    /** Removes the node at slot `index`: it is swapped with the last node, the heap order
        is restored below the last slot, and the last slot is dropped. */
    method Del(index: nat)
      requires Valid() && index < |heap|
      modifies this
      ensures Valid() && fired == old(fired)
      ensures |heap| == old(|heap|) - 1
      ensures Timers() == old(Timers()) - {old(heap[index]).id}
    {
      var i := index;
      var n := |heap| - 1;
      OrderedPrefix(heap, n);
      if i < n {
        ghost var before := heap;
        SwapNode(i, n);
        ReplaceSlot(before, heap, n, i);
        Resift(i, n);
      }
      assert heap[n] == old(heap[index]);
      DropLastSlot(heap, ref, n);
      ref, heap := ref - {heap[n].id}, heap[..n];
    }

    /** Removes the root. */
    method Pop()
      requires Valid() && heap != []
      modifies this
      ensures Valid() && fired == old(fired)
      ensures |heap| == old(|heap|) - 1
      ensures Timers() == old(Timers()) - {old(heap[0]).id}
    {
      Del(0);
    }

    /** Runs the callback of timer `id` and removes it; an unknown id is ignored. */
    method DoWork(id: int)
      requires Valid()
      modifies this
      ensures Valid()
      ensures id !in old(Timers()) ==> heap == old(heap) && ref == old(ref) && fired == old(fired)
      ensures id in old(Timers()) ==>
                Timers() == old(Timers()) - {id} && fired == old(fired) + [old(Timers())[id]]
    {
      if heap == [] || id !in ref {
        return;
      }
      var i := ref[id];
      var node := heap[i];
      fired := fired + [node];
      Del(i);
    }

    /** Pushes the expiry of a present timer to `now + timeout` and sifts it down only.  The
        caller must not move a deadline earlier: the source relies on that (its comment on
        line 104 says the new time is always larger), since sifting down cannot repair a
        node that now expires before its parent. */
    method Adjust(id: int, timeout: int, now: int)
      requires Valid() && heap != [] && id in ref
      requires heap[ref[id]].expires <= now + timeout
      modifies this
      ensures Valid() && fired == old(fired) && |heap| == old(|heap|)
      ensures Timers() == old(Timers())[id := old(Timers())[id].(expires := now + timeout)]
    {
      var i := ref[id];
      var node := heap[i].(expires := now + timeout);
      EntriesReplace(heap, ref, i, node);
      ghost var before := heap;
      heap := heap[i := node];
      ReplaceSlot(before, heap, |heap|, i);
      if i > 0 {
        // the deadline only moves later, so the edge from the parent still holds
        assert IsChild((i - 1) / 2, i);
      }
      var moved := SiftDown(i, |heap|);
    }

    /** Runs and removes, root first, every timer that has expired at `now`. */
    method Tick(now: int)
      requires Valid()
      modifies this
      ensures Valid()
      ensures Timers() == Unexpired(old(Timers()), now)
      ensures heap == [] || heap[0].expires > now
      ensures |fired| >= |old(fired)| && fired[..|old(fired)|] == old(fired)
      ensures Fired(old(Timers()), Timers(), fired[|old(fired)|..], now)
    {
      ghost var t0 := Timers();
      ghost var newly: seq<TimerNode> := [];
      assert t0.Keys - t0.Keys == {};
      while heap != []
        invariant Valid() && fired == old(fired) + newly
        invariant Fired(t0, Timers(), newly, now)
        decreases |heap|
      {
        var node := heap[0];
        if node.expires - now > 0 {
          break;
        }
        RootBeforeAll();
        FiredOneMore(t0, Timers(), newly, now, node);
        fired := fired + [node];
        newly := newly + [node];
        Pop();
      }
      RootBeforeAll();
      if heap == [] {
        EmptyHeapHoldsNothing(ref);
      }
      FiredAll(t0, Timers(), newly, now);
      assert fired[..|old(fired)|] == old(fired) && fired[|old(fired)|..] == newly;
    }

    /** In a valid timer the root expires no later than any held timer. */
    lemma RootBeforeAll()
      requires Valid()
      ensures heap != [] ==> heap[0].id in Timers() && Timers()[heap[0].id] == heap[0]
      ensures forall id :: id in Timers() ==> heap[0].expires <= Timers()[id].expires
    {
      forall id | id in Timers()
        ensures heap[0].expires <= Timers()[id].expires
      {
        RootIsMinimum(heap, ref[id]);
      }
    }

    /** Runs the expired timers at `now`, then returns how many milliseconds after the clock
        reading `later` the earliest remaining timer expires (never less than 0), or -1 when
        no timer is left.  `later` is the clock reading taken after the tick. */
    method GetNextTick(now: int, later: int) returns (res: int)
      requires Valid() && now <= later
      modifies this
      ensures Valid()
      ensures Timers() == Unexpired(old(Timers()), now)
      ensures |fired| >= |old(fired)| && fired[..|old(fired)|] == old(fired)
      ensures Ids(fired[|old(fired)|..]) == old(Timers()).Keys - Timers().Keys
      ensures DistinctIds(fired[|old(fired)|..])
      ensures res == -1 <==> Timers() == map[]
      ensures Timers() != map[] ==>
                && (forall id :: id in Timers() ==> res <= ClampToZero(Timers()[id].expires - later))
                && (exists id :: id in Timers() && res == ClampToZero(Timers()[id].expires - later))
    {
      Tick(now);
      res := -1;
      if heap != [] {
        res := heap[0].expires - later;
        if res < 0 {
          res := 0;
        }
        RootBeforeAll();
      } else {
        EmptyHeapHoldsNothing(ref);
      }
    }

    /** Removes every timer. */
    method Clear()
      modifies this
      ensures Valid() && heap == [] && ref == map[] && Timers() == map[] && fired == old(fired)
    {
      ref := map[];
      heap := [];
    }
  }

  // ---------------------------------------------------------------------------
  // The source's code as written, where it differs from the model above.
  // ---------------------------------------------------------------------------

  /** Largest value of `size_t`, the type of the source's slot indices. */
  const SizeMax: int := 0xFFFF_FFFF_FFFF_FFFF

  /** `i - 1` on `size_t`: 0 wraps round to SizeMax. */
  function SizePred(i: nat): (r: nat)
    ensures i > 0 ==> r == i - 1
    ensures i == 0 ==> r == SizeMax
  {
    if i == 0 then SizeMax else i - 1
  }

  /** `siftup_` as written (heaptimer.cpp lines 11-18).  The parent index is computed on
      `size_t`, so the loop test `j >= 0` always holds and the loop ends only by `break`;
      at the root the parent index wraps to SizeMax / 2, past the end of the heap, and
      reading that slot is undefined behaviour, modelled as `None`. */
  function SiftUpAsWritten(h: seq<TimerNode>, i: nat): (r: Option<seq<TimerNode>>)
    requires i < |h| <= SizeMax / 2
    ensures r.Some? ==> |r.value| == |h|
    decreases i
  {
    var j := SizePred(i) / 2;
    if j >= |h| then None
    else if Less(h[j], h[i]) then Some(h)
    else SiftUpAsWritten(Swap(h, i, j), j)
  }

  /** Every sift-up that reaches the root faults as written; in particular inserting the
      first timer (slot 0 of a one-node heap) reads past the end. */
  lemma SiftUpAsWrittenFaultsAtRoot(h: seq<TimerNode>)
    requires 0 < |h| <= SizeMax / 2
    ensures SiftUpAsWritten(h, 0) == None
  {
  }

  /** A node that expires no later than every node on its path to the root climbs to the
      root, so the as-written sift-up faults for it, whatever slot it starts from. */
  lemma {:induction false} SiftUpAsWrittenFaultsForEarliest(h: seq<TimerNode>, i: nat)
    requires i < |h| <= SizeMax / 2
    requires forall k :: 0 <= k < |h| ==> h[i].expires <= h[k].expires
    ensures SiftUpAsWritten(h, i) == None
    decreases i
  {
    if i > 0 {
      var j := (i - 1) / 2;
      var r := Swap(h, i, j);
      assert forall k :: 0 <= k < |r| ==> r[j].expires <= r[k].expires;
      SiftUpAsWrittenFaultsForEarliest(r, j);
    }
  }

  /** Conversion of a `size_t` to the `int` return value (two's complement, 32 bits). */
  function SizeToInt(x: nat): (r: int)
    ensures -0x8000_0000 <= r < 0x8000_0000
    ensures x < 0x8000_0000 ==> r == x
  {
    var y := x % 0x1_0000_0000;
    if y >= 0x8000_0000 then y - 0x1_0000_0000 else y
  }

  /** `GetNextTick`'s result as written (heaptimer.cpp lines 142-147), given the earliest
      deadline (if any) and the clock reading `later`: the difference is stored in a
      `size_t`, so the clamp `res < 0` can never apply, and the `size_t` is converted back
      to `int` on return. */
  function NextTickAsWritten(earliest: Option<int>, later: int): (r: int)
    ensures earliest.None? ==> r == -1
  {
    var res: nat := match earliest
      case None => SizeMax
      case Some(e) => (e - later) % 0x1_0000_0000_0000_0000;
    SizeToInt(res)
  }

  /** On the normal path (a deadline still ahead, by less than 2^31 ms) the as-written
      result is the remaining wait, as `GetNextTick` returns it. */
  lemma NextTickAsWrittenAhead(e: int, later: int)
    requires 0 <= e - later < 0x8000_0000
    ensures NextTickAsWritten(Some(e), later) == ClampToZero(e - later)
  {
  }

  /** A deadline that passed between the tick and the second clock reading yields a
      negative result (here -1, which `epoll_wait` takes as "wait forever") instead of 0. */
  lemma NextTickAsWrittenOverdue(later: int)
    ensures NextTickAsWritten(Some(later - 1), later) == -1
    ensures ClampToZero(later - 1 - later) == 0
  {
    assert later - 1 - later == -1;
    assert -1 % 0x1_0000_0000_0000_0000 == SizeMax;
    assert SizeMax % 0x1_0000_0000 == 0xFFFF_FFFF;
  }
}

/** The teardown that the last drop starts: recursive, over the realised part of the red tree, and
    decrementing the same wrapping counter past zero. */
module Teardown {
  import opened Base
  import opened Green
  import opened Red
  import opened RefCount

  /** `x` is below `a`, under one of its first `i` children. */
  predicate UnderEarlier(a: Handle, i: nat, x: Handle) {
    x.Child? && (if x.parent == a then x.index < i else UnderEarlier(a, i, x.parent))
  }

  /** Nobody is inside a call: every record is the root or the one its parent's slot holds. */
  ghost predicate Whole(heap: Heap, next: NodeId) {
    && RecsOk(heap, next) && SlotsOk(heap)
    && (forall id {:trigger Held(heap, [], id)} | id in heap :: heap[id].owner.None? && Held(heap, [], id))
  }

  /** `heap` is `h` without what was below the first `i` children of `n`, whose slots are empty. */
  ghost predicate Pruned(h: Heap, heap: Heap, n: NodeId, i: nat)
    requires n in h && i <= |h[n].slots|
  {
    && n in heap
    && heap[n] == h[n].(slots := EmptySlots(i) + h[n].slots[i..])
    && (forall id | id in heap && id != n :: id in h && heap[id] == h[id])
    && (forall id | id in h :: id in heap <==> !UnderEarlier(h[n].at, i, h[id].at))
  }

  lemma {:induction false} NotUnderItself(a: Handle, i: nat, x: Handle)
    requires Depth(x) <= Depth(a)
    ensures !UnderEarlier(a, i, x)
  {
    if x.Child? {
      NotUnderItself(a, i, x.parent);
    }
  }

  lemma PrunedAtFirst(h: Heap, n: NodeId)
    requires n in h
    ensures Pruned(h, h, n, 0)
  {
    forall id | id in h ensures !UnderEarlier(h[n].at, 0, h[id].at) {
      NothingUnderNoChildren(h[n].at, h[id].at);
    }
    assert EmptySlots(0) + h[n].slots[0..] == h[n].slots;
  }

  lemma {:induction false} NothingUnderNoChildren(a: Handle, x: Handle)
    ensures !UnderEarlier(a, 0, x)
  {
    if x.Child? && x.parent != a {
      NothingUnderNoChildren(a, x.parent);
    }
  }

  /** One record per place. */
  lemma {:induction false} OnePerPlace(h: Heap, next: NodeId, p: NodeId, q: NodeId)
    requires Whole(h, next) && p in h && q in h && h[p].at == h[q].at
    ensures p == q
    decreases h[p].at
  {
    assert RecOk(h, next, p) && RecOk(h, next, q);
    if p != 0 && q != 0 {
      OnePerPlace(h, next, h[p].parent.value, h[q].parent.value);
      assert Held(h, [], p) && Held(h, [], q);
    }
  }

  /** What is left is whole again. */
  lemma PrunedIsWhole(h: Heap, heap: Heap, next: NodeId, n: NodeId, i: nat)
    requires Whole(h, next) && n in h && i <= |h[n].slots| && Pruned(h, heap, n, i)
    ensures Whole(heap, next)
  {
    PrunedRecs(h, heap, next, n, i);
    PrunedSlots(h, heap, next, n, i);
  }

  lemma PrunedRecs(h: Heap, heap: Heap, next: NodeId, n: NodeId, i: nat)
    requires Whole(h, next) && n in h && i <= |h[n].slots| && Pruned(h, heap, n, i)
    ensures RecsOk(heap, next) && (forall id | id in heap :: heap[id].owner.None? && Held(heap, [], id))
  {
    forall id | id in heap ensures RecOk(heap, next, id) && heap[id].owner.None? && Held(heap, [], id) {
      PrunedRec(h, heap, next, n, i, id);
    }
    assert RecOk(h, next, 0);
  }

  lemma PrunedSlots(h: Heap, heap: Heap, next: NodeId, n: NodeId, i: nat)
    requires Whole(h, next) && n in h && i <= |h[n].slots| && Pruned(h, heap, n, i)
    ensures SlotsOk(heap)
  {
    forall p, j | p in heap && 0 <= j < |heap[p].slots| ensures SlotOk(heap, p, j) {
      assert |heap[p].slots| == |h[p].slots| && SlotOk(h, p, j);
      assert h[p].slots[j].NodeSlot? ==> RecOk(h, next, h[p].slots[j].id);
      if h[p].at == h[n].at {
        OnePerPlace(h, next, p, n);
      }
      PrunedSlot(h, heap, next, n, i, p, j);
    }
  }

  lemma PrunedRec(h: Heap, heap: Heap, next: NodeId, n: NodeId, i: nat, id: NodeId)
    requires Whole(h, next) && n in h && i <= |h[n].slots| && Pruned(h, heap, n, i) && id in heap
    ensures RecOk(heap, next, id) && heap[id].owner.None? && Held(heap, [], id)
  {
    assert RecOk(h, next, id) && Held(h, [], id);
    if id != 0 {
      var p := h[id].parent.value;
      assert RecOk(h, next, p);
      PrunedParent(h, heap, n, i, p, id);
      KeptUnderParent(h, heap, next, n, i, p, id);
    }
  }

  lemma PrunedParent(h: Heap, heap: Heap, n: NodeId, i: nat, p: NodeId, id: NodeId)
    requires n in h && i <= |h[n].slots| && Pruned(h, heap, n, i) && id in heap
    requires p in h && h[id].at.Child? && h[id].at.parent == h[p].at
    ensures p in heap && (p == n ==> h[id].at.index >= i)
  {
  }

  lemma KeptUnderParent(h: Heap, heap: Heap, next: NodeId, n: NodeId, i: nat, p: NodeId, id: NodeId)
    requires n in h && i <= |h[n].slots| && Pruned(h, heap, n, i)
    requires id in h && id in heap && p in h && p in heap && id != 0 && h[id].parent == Some(p)
    requires p == n ==> h[id].at.Child? && h[id].at.index >= i
    requires RecOk(h, next, id) && h[id].owner.None? && Held(h, [], id)
    ensures RecOk(heap, next, id) && heap[id].owner.None? && Held(heap, [], id)
  {
  }

  lemma PrunedSlot(h: Heap, heap: Heap, next: NodeId, n: NodeId, i: nat, p: NodeId, j: nat)
    requires n in h && i <= |h[n].slots| && Pruned(h, heap, n, i)
    requires p in h && p in heap && j < |heap[p].slots| == |h[p].slots| && SlotOk(h, p, j)
    requires h[p].slots[j].NodeSlot? ==> h[p].slots[j].id in h && RecOk(h, next, h[p].slots[j].id)
    requires h[p].at == h[n].at ==> p == n
    ensures SlotOk(heap, p, j)
  {
    if heap[p].slots[j].NodeSlot? {
      var id := h[p].slots[j].id;
      assert h[id].at.parent == h[p].at;
      assert id in heap;
    }
  }

  // ----- one more child

  /** If slot `i` of `n` holds no node there is nothing below it. */
  lemma {:induction false} NothingUnder(h: Heap, next: NodeId, n: NodeId, i: nat, id: NodeId)
    requires Whole(h, next) && n in h && i < |h[n].slots| && !h[n].slots[i].NodeSlot? && id in h
    ensures UnderEarlier(h[n].at, i + 1, h[id].at) <==> UnderEarlier(h[n].at, i, h[id].at)
    decreases h[id].at
  {
    assert RecOk(h, next, id);
    if id != 0 {
      var p := h[id].parent.value;
      if h[p].at == h[n].at {
        OnePerPlace(h, next, p, n);
        assert Held(h, [], id);
      } else {
        NothingUnder(h, next, n, i, p);
      }
    }
  }

  /** Otherwise there is that node and what is below it. */
  lemma {:induction false} ChildAndBelow(h: Heap, next: NodeId, n: NodeId, i: nat, c: NodeId, id: NodeId)
    requires Whole(h, next) && n in h && i < |h[n].slots| && h[n].slots[i] == NodeSlot(c) && id in h && c in h
    ensures UnderEarlier(h[n].at, i + 1, h[id].at) <==>
            UnderEarlier(h[n].at, i, h[id].at) || id == c || UnderEarlier(h[c].at, |h[c].slots|, h[id].at)
    decreases h[id].at
  {
    ChildPlace(h, next, n, i, c);
    assert RecOk(h, next, id);
    if id == 0 {
      assert c != 0;
    } else if h[id].at.parent == h[n].at {
      NotUnderItself(h[c].at, |h[c].slots|, h[n].at);
      DirectChild(h, next, n, i, c, id);
    } else {
      var p := h[id].parent.value;
      ChildAndBelow(h, next, n, i, c, p);
      if h[p].at == h[c].at {
        OnePerPlace(h, next, p, c);
        assert RecOk(h, next, c);
      }
    }
  }

  lemma ChildPlace(h: Heap, next: NodeId, n: NodeId, i: nat, c: NodeId)
    requires Whole(h, next) && n in h && i < |h[n].slots| && h[n].slots[i] == NodeSlot(c) && c in h
    ensures c != 0 && h[c].at.Child? && h[c].at.parent == h[n].at && h[c].at.index == i
  {
    assert SlotOk(h, n, i) && RecOk(h, next, c);
  }

  lemma DirectChild(h: Heap, next: NodeId, n: NodeId, i: nat, c: NodeId, id: NodeId)
    requires Whole(h, next) && n in h && i < |h[n].slots| && h[n].slots[i] == NodeSlot(c) && id in h && c in h
    requires id != 0 && h[id].at.Child? && h[id].at.parent == h[n].at
    ensures h[id].at.index == i <==> id == c
  {
    ChildPlace(h, next, n, i, c);
    assert RecOk(h, next, id) && Held(h, [], id);
    OnePerPlace(h, next, h[id].parent.value, n);
  }

  function Cleared(h: Heap, n: NodeId, i: nat): Heap
    requires n in h && i < |h[n].slots|
  {
    h[n := h[n].(slots := h[n].slots[i := Empty])]
  }

  lemma ClearedPrefix(slots: seq<Slot>, i: nat)
    requires i < |slots|
    ensures (EmptySlots(i) + slots[i..])[i := Empty] == EmptySlots(i + 1) + slots[i + 1..]
  {
  }

  lemma PassLeaf(h: Heap, heap: Heap, next: NodeId, n: NodeId, i: nat)
    requires Whole(h, next) && n in h && i < |h[n].slots| && Pruned(h, heap, n, i) && !h[n].slots[i].NodeSlot?
    ensures Pruned(h, Cleared(heap, n, i), n, i + 1)
  {
    ClearedPrefix(h[n].slots, i);
    forall id | id in h ensures UnderEarlier(h[n].at, i + 1, h[id].at) <==> UnderEarlier(h[n].at, i, h[id].at) {
      NothingUnder(h, next, n, i, id);
    }
  }

  lemma PassNode(h: Heap, heap: Heap, heap': Heap, next: NodeId, n: NodeId, i: nat, c: NodeId)
    requires Whole(h, next) && n in h && i < |h[n].slots| && Pruned(h, heap, n, i) && h[n].slots[i] == NodeSlot(c)
    requires c in h && c in heap && c != n && heap[c] == h[c] && Pruned(heap, heap', c, |heap[c].slots|)
    requires n in heap' && heap'[n] == heap[n]
    ensures Pruned(h, Cleared(heap', n, i) - {c}, n, i + 1)
  {
    forall id | id in h
      ensures UnderEarlier(h[n].at, i + 1, h[id].at) <==>
              UnderEarlier(h[n].at, i, h[id].at) || id == c || UnderEarlier(h[c].at, |h[c].slots|, h[id].at) {
      ChildAndBelow(h, next, n, i, c, id);
    }
    PassNodeMaps(h, heap, heap', n, i, c);
  }

  lemma PassNodeMaps(h: Heap, heap: Heap, heap': Heap, n: NodeId, i: nat, c: NodeId)
    requires n in h && i < |h[n].slots| && Pruned(h, heap, n, i)
    requires c in h && c in heap && c != n && heap[c] == h[c] && Pruned(heap, heap', c, |heap[c].slots|)
    requires n in heap' && heap'[n] == heap[n]
    requires forall id | id in h ::
               UnderEarlier(h[n].at, i + 1, h[id].at) <==>
               UnderEarlier(h[n].at, i, h[id].at) || id == c || UnderEarlier(h[c].at, |h[c].slots|, h[id].at)
    ensures Pruned(h, Cleared(heap', n, i) - {c}, n, i + 1)
  {
    ClearedPrefix(h[n].slots, i);
    var last := Cleared(heap', n, i) - {c};
    forall id | id in h ensures id in last <==> !UnderEarlier(h[n].at, i + 1, h[id].at) {
      assert id in heap ==> (id in heap' <==> !UnderEarlier(heap[c].at, |heap[c].slots|, heap[id].at));
      assert id in heap && id != n ==> heap[id] == h[id];
      assert id in heap' ==> id in heap;
    }
  }

  /** A filled slot's node is there and smaller. */
  lemma ChildIsThere(h: Heap, next: NodeId, n: NodeId, i: nat, c: NodeId)
    requires Whole(h, next) && n in h && i < |h[n].slots| && h[n].slots[i] == NodeSlot(c)
    ensures c in h && c != n && GreenOf(h[c].at) < GreenOf(h[n].at) && h[c].parent == Some(n)
  {
    assert SlotOk(h, n, i);
    ChildPlace(h, next, n, i, c);
    assert RecOk(h, next, c) && RecOk(h, next, n);
  }

  /** Clearing below a child leaves its parent alone. */
  lemma ParentKept(h: Heap, heap: Heap, next: NodeId, n: NodeId, i: nat, c: NodeId)
    requires Whole(h, next) && n in h && i < |h[n].slots| && h[n].slots[i] == NodeSlot(c) && c in h && c != n
    requires Pruned(h, heap, c, |h[c].slots|)
    ensures n in heap && heap[n] == h[n]
  {
    ChildPlace(h, next, n, i, c);
    NotUnderItself(h[c].at, |h[c].slots|, h[n].at);
  }

  // ----- how many decrements

  /** The tokens held in slots. */
  function TokenSlots(h: Heap): set<(NodeId, nat)> {
    set p, i | p in h && 0 <= i < |h[p].slots| && h[p].slots[i].TokenSlot? :: (p, i)
  }

  /** Two decrements for every realised node, one for every realised token; the root's data has no
      parent to drop, so a whole teardown makes one less: 2N + T + 1 for N nodes besides the root. */
  function Work(h: Heap): nat {
    2 * |h| + |TokenSlots(h)|
  }

  lemma WorkOfToken(h: Heap, n: NodeId, i: nat)
    requires n in h && i < |h[n].slots| && h[n].slots[i].TokenSlot?
    ensures Work(Cleared(h, n, i)) == Work(h) - 1
  {
    assert TokenSlots(Cleared(h, n, i)) == TokenSlots(h) - {(n, i)};
    assert (n, i) in TokenSlots(h);
    assert Cleared(h, n, i).Keys == h.Keys;
  }

  lemma WorkOfOther(h: Heap, n: NodeId, i: nat)
    requires n in h && i < |h[n].slots| && !h[n].slots[i].TokenSlot?
    ensures Work(Cleared(h, n, i)) == Work(h)
  {
    assert TokenSlots(Cleared(h, n, i)) == TokenSlots(h);
    assert Cleared(h, n, i).Keys == h.Keys;
  }

  lemma WorkOfNode(h: Heap, c: NodeId)
    requires c in h && forall i | 0 <= i < |h[c].slots| :: h[c].slots[i].Empty?
    ensures Work(h - {c}) == Work(h) - 2
  {
    assert TokenSlots(h - {c}) == TokenSlots(h);
    assert (h - {c}).Keys == h.Keys - {c};
    assert |h| == |h.Keys| && |h - {c}| == |(h - {c}).Keys|;
  }

  /** One slot without a node, cleared. */
  lemma LeafStep(h: Heap, heap: Heap, next: NodeId, n: NodeId, i: nat)
    requires Whole(h, next) && n in h && i < |h[n].slots| && Pruned(h, heap, n, i) && !heap[n].slots[i].NodeSlot?
    ensures var heap' := Cleared(heap, n, i);
      && Pruned(h, heap', n, i + 1) && Whole(heap', next) && heap'[n].at == heap[n].at
      && Work(heap') == Work(heap) - if heap[n].slots[i].TokenSlot? then 1 else 0
  {
    PassLeaf(h, heap, next, n, i);
    PrunedIsWhole(h, Cleared(heap, n, i), next, n, i + 1);
    if heap[n].slots[i].TokenSlot? {
      WorkOfToken(heap, n, i);
    } else {
      WorkOfOther(heap, n, i);
    }
  }

  /** One slot with a node below which everything is gone, cleared, and the node freed. */
  lemma NodeStep(h: Heap, before: Heap, after: Heap, next: NodeId, n: NodeId, i: nat, c: NodeId)
    requires Whole(h, next) && n in h && i < |h[n].slots| && Pruned(h, before, n, i)
    requires Whole(before, next) && before[n].slots[i] == NodeSlot(c) && c in before
    requires Pruned(before, after, c, |before[c].slots|)
    ensures n in after && c in after && c != n && after[n] == before[n] && after[c].parent == Some(n)
    ensures forall j | 0 <= j < |after[c].slots| :: after[c].slots[j].Empty?
    ensures var last := Cleared(after, n, i) - {c};
      && Pruned(h, last, n, i + 1) && Whole(last, next) && last[n].at == before[n].at && Work(last) == Work(after) - 2
  {
    ChildIsThere(before, next, n, i, c);
    ParentKept(before, after, next, n, i, c);
    PassNode(h, before, after, next, n, i, c);
    PrunedIsWhole(h, Cleared(after, n, i) - {c}, next, n, i + 1);
    WorkOfOther(after, n, i);
    WorkOfNode(Cleared(after, n, i), c);
  }

  /** The counter after `d` decrements from zero. */
  function After(d: nat): u32 {
    if d == 0 then 0 else WrappingDec(After(d - 1))
  }

  lemma {:induction false} AfterIsWrap(d: nat)
    ensures After(d) == Wrap(0 - d)
    decreases d
  {
    if d > 0 {
      AfterIsWrap(d - 1);
      WrappingIsWrap(1 - d, 0);
    }
  }

  lemma AfterOneMore(d: nat)
    ensures d < U32_MAX ==> After(d) != 1
    ensures After(U32_MAX) == 1
  {
    AfterIsWrap(d);
    AfterIsWrap(U32_MAX);
    if 0 < d < U32_MAX {
      WrapShift(TWO32 - d, -1);
      WrapSmall(TWO32 - d);
    }
    WrapShift(1, -1);
    WrapSmall(1);
  }

  /** A teardown that makes `total` decrements below zero observes 1 again, and so starts over, exactly
      when there are 2^32 or more of them. */
  lemma ReentersIffTooMany(total: nat)
    ensures (exists d | 0 <= d < total :: After(d) == 1) <==> total >= TWO32
  {
    AfterOneMore(U32_MAX);
    forall d | 0 <= d < U32_MAX ensures After(d) != 1 {
      AfterOneMore(d);
    }
  }

  /** When the last handle is dropped the realised tree is whole. */
  lemma QuietHeapIsWhole(s: RefCount.State, h: HandleId)
    requires Inv(s) && RefCount.Apply(s, RefCount.Drop(h)).Some? && |s.handles| == 1
    ensures Whole(s.heap, s.next) && s.handles[h] in s.heap && s.count == 1
  {
    LastHandleIsQuiet(s, h);
    WrapSmall(1);
    QuietIsWhole(s.heap, s.next, s.threads);
  }

  lemma QuietIsWhole(heap: Heap, next: NodeId, threads: seq<Pc>)
    requires RecsOk(heap, next) && SlotsOk(heap) && AllHeld(heap, threads)
    requires forall t | 0 <= t < |threads| :: threads[t].Idle?
    ensures Whole(heap, next)
  {
    forall id | id in heap ensures heap[id].owner.None? && Held(heap, [], id) {
      QuietHeld(heap, threads, id);
    }
  }

  lemma QuietHeld(heap: Heap, threads: seq<Pc>, id: NodeId)
    requires id in heap && Held(heap, threads, id)
    requires forall t | 0 <= t < |threads| :: threads[t].Idle?
    ensures heap[id].owner.None? && Held(heap, [], id)
  {
  }

  lemma {:induction false} AllUnderRoot(h: Heap, next: NodeId, id: NodeId)
    requires Whole(h, next) && id in h && id != 0
    ensures 0 in h && UnderEarlier(h[0].at, |h[0].slots|, h[id].at)
    decreases h[id].at
  {
    assert RecOk(h, next, 0) && RecOk(h, next, id);
    var p := h[id].parent.value;
    assert RecOk(h, next, p);
    if p != 0 {
      AllUnderRoot(h, next, p);
      NotUnderItself(h[0].at, |h[0].slots|, h[0].at);
      if h[p].at == h[0].at {
        OnePerPlace(h, next, p, 0);
      }
    }
  }

  lemma AllGone(h: Heap, next: NodeId)
    requires Whole(h, next)
    ensures 0 in h && h[0].parent.None?
    ensures forall id | id in h && id != 0 :: UnderEarlier(h[0].at, |h[0].slots|, h[id].at)
  {
    assert RecOk(h, next, 0);
    forall id | id in h && id != 0 ensures 0 in h && UnderEarlier(h[0].at, |h[0].slots|, h[id].at) {
      AllUnderRoot(h, next, id);
    }
  }

  lemma OnlyRootLeft(h: Heap, heap: Heap)
    requires 0 in h && h[0].parent.None? && Pruned(h, heap, 0, |h[0].slots|)
    requires forall id | id in h && id != 0 :: UnderEarlier(h[0].at, |h[0].slots|, h[id].at)
    ensures OnlyRoot(heap) && Work(heap) == 2
  {
    assert heap.Keys == {0};
    assert TokenSlots(heap) == {};
    assert |heap| == |heap.Keys|;
  }

  ghost predicate OnlyRoot(heap: Heap) {
    && 0 in heap && heap - {0} == map[] && heap[0].parent.None?
    && forall i | 0 <= i < |heap[0].slots| :: heap[0].slots[i].Empty?
  }

  /** The tree's node data and its counter, as the dropping thread finds and frees them. */
  class Arena {
    ghost const next: NodeId
    var heap: Heap
    var count: u32
    var counterLive: bool
    ghost var drops: nat

    /** Every node data still there is reachable, the counter is there and has been decremented
        `drops` times below zero, and it will not run all the way round to 1. */
    ghost predicate Sound()
      reads this
    {
      Whole(heap, next) && counterLive && count == After(drops) && drops + Work(heap) <= TWO32
    }

    /** The heap as the protocol left it, one `fetch_sub` before the end. */
    constructor (s: RefCount.State)
      ensures heap == s.heap && count == s.count && counterLive && drops == 0 && next == s.next
    {
      heap, count, counterLive, drops, next := s.heap, s.count, true, 0, s.next;
    }

    /** `fetch_sub(1)` through the data of `n`; both must still be allocated. */
    method FetchSub(n: NodeId) returns (refs: u32)
      requires n in heap && counterLive
      modifies this`count, this`drops
      ensures refs == old(count) && count == WrappingDec(refs) && drops == old(drops) + 1
    {
      refs := count;
      count := WrappingDec(count);
      drops := drops + 1;
    }

    /** `SyntaxNode::drop` of an internal reference: it does not see 1, so no second teardown. */
    method DropRef(n: NodeId)
      requires n in heap && counterLive && count == After(drops) && drops < U32_MAX
      modifies this`count, this`drops
      ensures count == After(drops) && drops == old(drops) + 1
    {
      AfterOneMore(drops);
      var refs := FetchSub(n);
      assert refs != 1;
    }

    /** Frees the data of `c`, which drops its pointer to its parent. */
    method FreeData(c: NodeId)
      requires c in heap && counterLive && count == After(drops)
      requires heap[c].parent.Some? ==> heap[c].parent.value in heap && drops < U32_MAX
      requires forall i | 0 <= i < |heap[c].slots| :: heap[c].slots[i].Empty?
      modifies this`heap, this`count, this`drops
      ensures heap == old(heap) - {c} && count == After(drops)
      ensures drops == old(drops) + if old(heap)[c].parent.Some? then 1 else 0
    {
      match heap[c].parent {
        case Some(p) => DropRef(p);
        case None =>
      }
      heap := heap - {c};
    }

    /** The loop of `drop_recursive` has emptied the first `i` slots of `n`, in heap `h` at first. */
    ghost predicate Emptied(h: Heap, n: NodeId, i: nat, total: nat)
      reads this
    {
      && Sound() && Whole(h, next) && n in h && i <= |h[n].slots| && Pruned(h, heap, n, i)
      && drops + Work(heap) == total
    }

    /** One iteration, for a slot that holds a node. */
    method DropChild(n: NodeId, i: nat, c: NodeId, ghost h: Heap, ghost total: nat)
      requires Emptied(h, n, i, total) && i < |h[n].slots| && heap[n].slots[i] == NodeSlot(c)
      modifies this`heap, this`count, this`drops
      ensures Emptied(h, n, i + 1, total) && heap[n].at == old(heap)[n].at
      decreases GreenOf(heap[n].at), 0
    {
      ghost var before := heap;
      ChildIsThere(before, next, n, i, c);
      DropRecursive(c);
      FreeChild(n, i, c, h, before, total);
    }

    /** The second half of it, when nothing is left below the child. */
    method FreeChild(n: NodeId, i: nat, c: NodeId, ghost h: Heap, ghost before: Heap, ghost total: nat)
      requires Sound() && Whole(h, next) && n in h && i < |h[n].slots| && Pruned(h, before, n, i)
      requires Whole(before, next) && before[n].slots[i] == NodeSlot(c) && c in before
      requires Pruned(before, heap, c, |before[c].slots|) && drops + Work(heap) == total
      modifies this`heap, this`count, this`drops
      ensures Emptied(h, n, i + 1, total) && heap[n].at == before[n].at
    {
      NodeStep(h, before, heap, next, n, i, c);
      DropSlot(n, i, c);
    }

    /** `*slot = None` drops the slot's node, whose data is freed next: two decrements. */
    method DropSlot(n: NodeId, i: nat, c: NodeId)
      requires n in heap && i < |heap[n].slots| && c in heap && c != n && heap[c].parent == Some(n)
      requires forall j | 0 <= j < |heap[c].slots| :: heap[c].slots[j].Empty?
      requires counterLive && count == After(drops) && drops < U32_MAX - 1
      modifies this`heap, this`count, this`drops
      ensures heap == Cleared(old(heap), n, i) - {c} && count == After(drops) && drops == old(drops) + 2
    {
      DropRef(c);
      heap := Cleared(heap, n, i);
      FreeData(c);
    }

    /** Empties every slot of `n`, freeing all nodes below it, children before their parents. */
    method DropRecursive(n: NodeId)
      requires Sound() && n in heap
      modifies this`heap, this`count, this`drops
      ensures Sound() && Pruned(old(heap), heap, n, |old(heap)[n].slots|)
      ensures drops + Work(heap) == old(drops + Work(heap))
      decreases GreenOf(heap[n].at), 1
    {
      ghost var h, total := heap, drops + Work(heap);
      var slots := |heap[n].slots|;
      PrunedAtFirst(h, n);
      for i := 0 to slots
        invariant Emptied(h, n, i, total)
        invariant heap[n].at == h[n].at
      {
        match heap[n].slots[i] {
          case NodeSlot(c) =>
            DropChild(n, i, c, h, total);
          case _ =>
            ClearLeaf(n, i, h, total);
        }
      }
    }

    /** One iteration, for a slot that holds a token or nothing. */
    method ClearLeaf(n: NodeId, i: nat, ghost h: Heap, ghost total: nat)
      requires Emptied(h, n, i, total) && i < |h[n].slots| && !heap[n].slots[i].NodeSlot?
      modifies this`heap, this`count, this`drops
      ensures Emptied(h, n, i + 1, total) && heap[n].at == old(heap)[n].at
    {
      LeafStep(h, heap, next, n, i);
      DropLeaf(n, i);
    }

    /** `*slot = None` drops the slot's token: one decrement, through its parent's data. */
    method DropLeaf(n: NodeId, i: nat)
      requires n in heap && i < |heap[n].slots| && !heap[n].slots[i].NodeSlot?
      requires counterLive && count == After(drops) && (heap[n].slots[i].TokenSlot? ==> drops < U32_MAX)
      modifies this`heap, this`count, this`drops
      ensures heap == Cleared(old(heap), n, i) && count == After(drops)
      ensures drops == old(drops) + if old(heap)[n].slots[i].TokenSlot? then 1 else 0
    {
      if heap[n].slots[i].TokenSlot? {
        DropRef(n);
      }
      heap := Cleared(heap, n, i);
    }

    /** The drop of the last handle, to node `last`, in a heap nobody is working on. Every node data is
        freed exactly once and never followed after that, the counter is freed last, and it has gone down from zero
        by 2N + T + 1, which never brings it round to 1. */
    method DropLast(last: NodeId)
      requires Whole(heap, next) && counterLive && count == 1 && last in heap
      requires Work(heap) - 1 < TWO32
      modifies this
      ensures heap == map[] && !counterLive
      ensures drops == old(Work(heap)) - 1 && count == After(drops)
    {
      var observesOne := LastFetchSub(last);
      if observesOne {
        TearDown(last);
      }
    }

    /** The `fetch_sub` of that drop, which observes 1 and leaves the counter at zero. */
    method LastFetchSub(last: NodeId) returns (observesOne: bool)
      requires last in heap && counterLive && count == 1
      modifies this`count, this`drops
      ensures observesOne && drops == 0 && count == After(0)
    {
      var refs := FetchSub(last);
      drops := 0;
      observesOne := refs == 1;
    }

    method TearDown(last: NodeId)
      requires Sound() && drops == 0 && last in heap
      modifies this
      ensures heap == map[] && !counterLive
      ensures drops == old(Work(heap)) - 1 && count == After(drops)
    {
      var root := FindRoot(last);
      EmptyTree(root);
      FreeRoot(root);
    }

    method FreeRoot(root: NodeId)
      requires OnlyRoot(heap) && root == 0 && counterLive && count == After(drops) && drops < U32_MAX
      modifies this
      ensures heap == map[] && !counterLive && drops == old(drops) + 1 && count == After(drops)
    {
      DropRef(root);
      FreeData(root);
      counterLive := false;
    }

    method EmptyTree(root: NodeId)
      requires Sound() && root == 0 && root in heap
      modifies this`heap, this`count, this`drops
      ensures OnlyRoot(heap) && counterLive && count == After(drops) && drops + 2 == old(drops + Work(heap)) <= TWO32
    {
      ghost var h := heap;
      AllGone(h, next);
      DropRecursive(root);
      OnlyRootLeft(h, heap);
    }

    /** `SyntaxNode::root`. */
    method FindRoot(n: NodeId) returns (root: NodeId)
      requires Sound() && n in heap
      ensures root == 0 && root in heap
    {
      root := n;
      while heap[root].parent.Some?
        invariant root in heap
        decreases heap[root].at
      {
        assert RecOk(heap, next, root);
        root := heap[root].parent.value;
      }
      assert RecOk(heap, next, root);
    }
  }

  lemma ObservingOneIsTheLastDrop(g: GreenNode, threads: nat, actions: seq<Action>, s: RefCount.State, a: Action)
    requires Exact(g) && RefCount.Run(NewTree(g, threads), actions) == Some(s)
    requires RefCount.Apply(s, a).Some? && Owed(s) < TWO32 && Observed(s, a) == Some(1)
    ensures a.Drop? && a.h in s.handles && s.handles[a.h] in s.heap
    ensures Whole(s.heap, s.next) && s.count == 1
  {
    NewTreeInv(g, threads);
    RunKeepsInv(NewTree(g, threads), actions);
    OnlyTheLastDropTearsDown(s, a);
    QuietHeapIsWhole(s, a.h);
  }

  /** The protocol and the teardown together: whatever the threads have done to a new tree, the step
      whose `fetch_sub` observes 1 is the drop of a handle, and the teardown run from there on the
      heap and the counter that they left frees everything, in 2N + T + 1 more decrements, without
      starting over, as long as that is fewer than 2^32 of them. */
  method TearDownAfter(g: GreenNode, threads: nat, ghost actions: seq<Action>, s: RefCount.State, a: Action)
    returns (arena: Arena)
    requires Exact(g) && RefCount.Run(NewTree(g, threads), actions) == Some(s)
    requires RefCount.Apply(s, a).Some? && Owed(s) < TWO32 && Observed(s, a) == Some(1)
    requires Work(s.heap) - 1 < TWO32
    ensures fresh(arena) && arena.next == s.next
    ensures arena.heap == map[] && !arena.counterLive
    ensures arena.drops == Work(s.heap) - 1 && arena.count == After(arena.drops)
  {
    ObservingOneIsTheLastDrop(g, threads, actions, s, a);
    arena := new Arena(s);
    arena.DropLast(s.handles[a.h]);
  }
}

/** What the handles of a shared red tree name: elements of the green tree it was made from, each the same
    one from its clone to its drop, and every node in reach. */
module Handles {
  import opened Base
  import opened Green
  import opened Red
  import opened RefCount

  // ----- which steps are possible, and what they leave alone

  /** A handle can be cloned from a live one onto any published node, under an unused name. */
  lemma ClonesExactly(s: State, via: HandleId, n: NodeId, h: HandleId)
    requires Inv(s)
    ensures var r := Apply(s, Clone(via, n, h));
      && (r.Some? <==> via in s.handles && n in s.heap && s.heap[n].owner.None? && h !in s.handles)
      && (r.Some? ==> r.value.handles.Keys == s.handles.Keys + {h} && r.value.handles[h] == n
                      && (forall k | k in s.handles :: r.value.handles[k] == s.handles[k])
                      && r.value.heap == s.heap && r.value.threads == s.threads && r.value.torn == s.torn)
  {
  }

  /** A handle can be dropped unless a thread that is inside a call borrows it. */
  lemma DropsExactly(s: State, h: HandleId)
    requires Inv(s)
    ensures var r := Apply(s, Drop(h));
      && (r.Some? <==> h in s.handles && forall t | 0 <= t < |s.threads| :: s.threads[t].Idle? || s.threads[t].via != h)
      && (r.Some? ==> r.value.handles.Keys == s.handles.Keys - {h}
                      && (forall k | k in r.value.handles :: r.value.handles[k] == s.handles[k])
                      && r.value.heap == s.heap && r.value.threads == s.threads)
  {
  }

  /** The sibling a route starts from must be there already. */
  ghost predicate RouteOpen(s: State, n: NodeId, i: nat, route: Route)
    requires n in s.heap
  {
    match route
    case FromStart => true
    case FromEnd => true
    case AfterSibling(j) => j < i && j < |s.heap[n].slots| && !s.heap[n].slots[j].Empty?
    case BeforeSibling(j) => i < j < |s.heap[n].slots| && !s.heap[n].slots[j].Empty?
  }

  /** An idle thread with a live handle can ask any published node for any child it has, by any route whose
      sibling is there, and then has that child's one offset. */
  lemma VisitsExactly(s: State, t: nat, via: HandleId, n: NodeId, i: nat, route: Route)
    requires Inv(s)
    ensures var r := Apply(s, Visit(t, via, n, i, route));
      && (r.Some? <==> t < |s.threads| && s.threads[t].Idle? && via in s.handles && n in s.heap
                       && s.heap[n].owner.None? && i < |Kids(s.heap[n].at)| && RouteOpen(s, n, i, route))
      && (r.Some? ==> r.value == s.(threads := s.threads[t := Reading(via, n, i, StartOf(ChildAt(s.heap[n].at, i)))]))
  {
    if n in s.heap && i < |s.heap[n].slots| {
      assert RecOk(s.heap, s.next, n);
      SiblingThere(s, n, i, route);
      if RouteOffset(s, n, i, route).Some? {
        RouteIsCanonical(s, n, i, route);
      }
    } else if n in s.heap {
      assert RecOk(s.heap, s.next, n);
    }
  }

  lemma SiblingThere(s: State, n: NodeId, i: nat, route: Route)
    requires Inv(s) && n in s.heap && i < |s.heap[n].slots|
    ensures RouteOffset(s, n, i, route).Some? <==> RouteOpen(s, n, i, route)
  {
    assert RecOk(s.heap, s.next, n);
    if route.AfterSibling? || route.BeforeSibling? {
      if route.j < |s.heap[n].slots| {
        assert SlotOk(s.heap, n, route.j);
      }
    }
  }

  /** A thread inside a call stays on its slot until it returns, when the slot holds the one child there;
      its steps touch no other thread and no handle. */
  lemma CallStaysOnItsSlot(s: State, t: nat, s': State)
    requires Inv(s) && t < |s.threads| && AdvanceThread(s, t) == Some(s')
    ensures var pc := s.threads[t];
      && !pc.Idle? && pc.n in s.heap && pc.i < |Kids(s.heap[pc.n].at)|
      && s'.handles == s.handles && |s'.threads| == |s.threads| && s'.threads == s.threads[t := s'.threads[t]]
      && (!s'.threads[t].Idle? ==>
            s'.threads[t].via == pc.via && s'.threads[t].n == pc.n && s'.threads[t].i == pc.i)
      && (s'.threads[t].Idle? ==>
            && pc.n in s'.heap && pc.i < |s'.heap[pc.n].slots|
            && SlotAt(s', s'.heap[pc.n].slots[pc.i]) == Some(ChildAt(s.heap[pc.n].at, pc.i)))
  {
    var pc := s.threads[t];
    assert PcOk(s.heap, s.handles, t, pc);
    assert RecOk(s.heap, s.next, pc.n);
    if s'.threads[t].Idle? {
      assert s'.heap == s.heap;
      SiblingInPlace(s, pc.n, pc.i);
      assert SlotOk(s.heap, pc.n, pc.i);
    }
  }

  // ----- the handle table, told from the actions

  function Renamed(table: map<HandleId, NodeId>, a: Action): map<HandleId, NodeId> {
    match a
    case Clone(_, n, h) => table[h := n]
    case Drop(h) => table - {h}
    case _ => table
  }

  function Told(table: map<HandleId, NodeId>, actions: seq<Action>): map<HandleId, NodeId> {
    if actions == [] then table else Renamed(Told(table, actions[..|actions| - 1]), actions[|actions| - 1])
  }

  lemma ApplyRenames(s: State, a: Action, s': State)
    requires Inv(s) && Apply(s, a) == Some(s')
    ensures s'.handles == Renamed(s.handles, a) && |s'.threads| == |s.threads|
  {
    if a.Advance? {
      CallStaysOnItsSlot(s, a.t, s');
    }
  }

  /** Over every interleaving: the handles there are, and the nodes they refer to, are those that the clones
      and drops alone tell. */
  lemma {:induction false} RunTellsHandles(s: State, actions: seq<Action>, s': State)
    requires Inv(s) && Run(s, actions) == Some(s')
    ensures s'.handles == Told(s.handles, actions) && |s'.threads| == |s.threads|
    decreases actions
  {
    if actions != [] {
      var front := actions[..|actions| - 1];
      var mid := Run(s, front).value;
      RunTellsHandles(s, front, mid);
      RunKeepsInv(s, front);
      ApplyRenames(mid, actions[|actions| - 1], s');
    }
  }

  /** Over every interleaving: until it is dropped a handle names the element it named at first. */
  lemma {:induction false} HandleKeepsItsElement(s: State, actions: seq<Action>, s': State, h: HandleId)
    requires Inv(s) && Run(s, actions) == Some(s') && h in s.handles && Drop(h) !in actions
    ensures h in s'.handles && s'.handles[h] == s.handles[h]
    ensures s.handles[h] in s.heap && s.handles[h] in s'.heap && s'.heap[s.handles[h]].at == s.heap[s.handles[h]].at
    decreases actions
  {
    assert Shared(s.heap, s.handles[h]);
    if actions != [] {
      var front, a := actions[..|actions| - 1], actions[|actions| - 1];
      var mid := Run(s, front).value;
      assert Drop(h) !in front && a in actions;
      HandleKeepsItsElement(s, front, mid, h);
      RunKeepsInv(s, front);
      ApplyRenames(mid, a, s');
      ApplyLeavesSlots(mid, a, s');
      assert Shared(mid.heap, mid.handles[h]);
      assert SamePlace(mid.heap[s.handles[h]], s'.heap[s.handles[h]]);
    }
  }

  // ----- the tree

  lemma {:induction false} RecordInTree(heap: Heap, next: NodeId, id: NodeId)
    requires RecsOk(heap, next) && id in heap
    ensures TreeOf(heap[id].at) == TreeOf(heap[0].at)
    decreases heap[id].at
  {
    assert RecOk(heap, next, id);
    if id != 0 {
      RecordInTree(heap, next, heap[id].parent.value);
    }
  }

  /** Over every interleaving on a new tree over `g`: its root record stays the root of `g`, with a slot for
      each of its children; every record is a node of `g`, so every handle names one; the threads stay; and
      the first handle names the root of `g` until it is dropped. */
  lemma RunStaysOnTree(g: GreenNode, threads: nat, actions: seq<Action>, s: State)
    requires Exact(g) && Run(NewTree(g, threads), actions) == Some(s)
    ensures |s.threads| == threads
    ensures 0 in s.heap && s.heap[0].at == Root(g) && |s.heap[0].slots| == |g.children|
    ensures forall id | id in s.heap ::
              Valid(s.heap[id].at) && IsNode(s.heap[id].at) && TreeOf(s.heap[id].at) == g
              && |s.heap[id].slots| == |Kids(s.heap[id].at)|
    ensures forall h | h in s.handles :: s.handles[h] in s.heap && s.heap[s.handles[h]].owner.None?
    ensures Drop(0) !in actions ==> 0 in s.handles && s.handles[0] == 0
  {
    var start := NewTree(g, threads);
    NewTreeInv(g, threads);
    RunKeepsInv(start, actions);
    RunTellsHandles(start, actions, s);
    SlotsAreWriteOnce(start, actions);
    assert Shared(start.heap, 0) && SamePlace(start.heap[0], s.heap[0]);
    forall id | id in s.heap
      ensures Valid(s.heap[id].at) && IsNode(s.heap[id].at) && TreeOf(s.heap[id].at) == g
              && |s.heap[id].slots| == |Kids(s.heap[id].at)| {
      assert RecOk(s.heap, s.next, id);
      RecordInTree(s.heap, s.next, id);
    }
    forall h | h in s.handles ensures s.handles[h] in s.heap && s.heap[s.handles[h]].owner.None? {
      assert Shared(s.heap, s.handles[h]);
    }
    if Drop(0) !in actions {
      HandleKeepsItsElement(start, actions, s, 0);
    }
  }

  // ----- every node is in reach

  /** Left alone, a thread inside a call comes to its end. */
  lemma {:induction false} FinishCall(start: State, actions: seq<Action>, s: State, t: nat)
    returns (more: seq<Action>, s': State)
    requires Inv(start) && Run(start, actions) == Some(s) && t < |s.threads| && !s.threads[t].Idle?
    ensures Run(start, more) == Some(s') && s'.handles == s.handles && s'.threads == s.threads[t := Idle]
    ensures s.threads[t].n in s.heap && s.threads[t].i < |Kids(s.heap[s.threads[t].n].at)|
    ensures s.threads[t].n in s'.heap && s.threads[t].i < |s'.heap[s.threads[t].n].slots|
    ensures SlotAt(s', s'.heap[s.threads[t].n].slots[s.threads[t].i]) ==
              Some(ChildAt(s.heap[s.threads[t].n].at, s.threads[t].i))
    decreases Rank(s.threads[t])
  {
    RunKeepsInv(start, actions);
    ThreadsNeverStick(s, t);
    var mid := AdvanceThread(s, t).value;
    var longer := actions + [Advance(t)];
    assert longer[..|longer| - 1] == actions;
    CallStaysOnItsSlot(s, t, mid);
    if mid.threads[t].Idle? {
      more, s' := longer, mid;
    } else {
      CallGoesOn(s, t, mid);
      more, s' := FinishCall(start, longer, mid, t);
    }
  }

  lemma CallGoesOn(s: State, t: nat, s': State)
    requires Inv(s) && t < |s.threads| && !s.threads[t].Idle? && AdvanceThread(s, t) == Some(s')
    ensures t < |s'.threads| && Rank(s'.threads[t]) < Rank(s.threads[t])
    ensures s.threads[t].n in s.heap && s.threads[t].n in s'.heap && s'.heap[s.threads[t].n].at == s.heap[s.threads[t].n].at
  {
    assert PcOk(s.heap, s.handles, t, s.threads[t]);
    CallsReturn(s, t, s');
    AdvanceLeavesSlots(s, t, s');
    assert Shared(s.heap, s.threads[t].n) && SamePlace(s.heap[s.threads[t].n], s'.heap[s.threads[t].n]);
  }

  /** Any node of `g` can be reached: some run on a new tree ends with a handle that names it. */
  lemma {:induction false} EveryNodeGetsAHandle(g: GreenNode, threads: nat, x: Handle)
    returns (actions: seq<Action>, s: State)
    requires Exact(g) && threads > 0 && Valid(x) && IsNode(x) && TreeOf(x) == g
    ensures Run(NewTree(g, threads), actions) == Some(s) && s.threads == NewTree(g, threads).threads
    ensures Depth(x) in s.handles && s.handles[Depth(x)] in s.heap && s.heap[s.handles[Depth(x)]].at == x
    ensures forall h | h in s.handles :: h <= Depth(x)
    decreases x
  {
    if x.Root? {
      actions, s := [], NewTree(g, threads);
    } else {
      var up, before := EveryNodeGetsAHandle(g, threads, x.parent);
      assert NewTree(g, threads).threads[0].Idle?;
      NewTreeInv(g, threads);
      actions, s := HandleToChild(NewTree(g, threads), up, before, x, Depth(x.parent));
    }
  }

  lemma HandleToChild(start: State, up: seq<Action>, s: State, x: Handle, h: HandleId)
    returns (actions: seq<Action>, s': State)
    requires Inv(start) && Run(start, up) == Some(s) && |s.threads| > 0 && s.threads[0].Idle?
    requires Valid(x) && IsNode(x) && x.Child?
    requires h in s.handles && s.handles[h] in s.heap && s.heap[s.handles[h]].at == x.parent
    requires forall k | k in s.handles :: k <= h
    ensures Run(start, actions) == Some(s') && s'.threads == s.threads
    ensures s'.handles.Keys == s.handles.Keys + {h + 1}
    ensures s'.handles[h + 1] in s'.heap && s'.heap[s'.handles[h + 1]].at == x
  {
    var n := s.handles[h];
    RunKeepsInv(start, up);
    assert Shared(s.heap, n);
    VisitsExactly(s, 0, h, n, x.index, FromStart);
    var asked := Apply(s, Visit(0, h, n, x.index, FromStart)).value;
    var asking := up + [Visit(0, h, n, x.index, FromStart)];
    assert asking[..|asking| - 1] == up;
    var back, there := FinishCall(start, asking, asked, 0);
    RunKeepsInv(start, back);
    assert there.threads == s.threads;
    actions, s' := CloneFromSlot(start, back, there, n, x, h);
  }

  lemma CloneFromSlot(start: State, back: seq<Action>, s: State, n: NodeId, x: Handle, h: HandleId)
    returns (actions: seq<Action>, s': State)
    requires Inv(start) && Run(start, back) == Some(s) && Inv(s) && IsNode(x) && x.Child?
    requires n in s.heap && x.index < |s.heap[n].slots| && SlotAt(s, s.heap[n].slots[x.index]) == Some(x)
    requires h in s.handles && forall k | k in s.handles :: k <= h
    ensures Run(start, actions) == Some(s') && s'.threads == s.threads
    ensures s'.handles.Keys == s.handles.Keys + {h + 1}
    ensures s'.handles[h + 1] in s'.heap && s'.heap[s'.handles[h + 1]].at == x
  {
    assert SlotOk(s.heap, n, x.index);
    var id := s.heap[n].slots[x.index].id;
    ClonesExactly(s, h, id, h + 1);
    actions := back + [Clone(h, id, h + 1)];
    assert actions[..|actions| - 1] == back;
    s' := Apply(s, Clone(h, id, h + 1)).value;
  }
}

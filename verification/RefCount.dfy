/** The shared red tree as a concurrent protocol: threads clone and drop handles and race to fill
    child slots, and one `u32` counts handles for the whole tree. */
module RefCount {
  import opened Base
  import opened Green
  import opened Red

  type NodeId = nat

  type HandleId = nat

  datatype Slot = Empty | NodeSlot(id: NodeId) | TokenSlot(at: Handle)

  /** One `NodeData`. `owner` is the thread that allocated it and has not published it in a slot. */
  datatype Rec = Rec(parent: Option<NodeId>, at: Handle, slots: seq<Slot>, owner: Option<nat>)

  /** Where a thread is inside `get_or_add_element`, called on node `n` for slot `i` while it
      borrows the external handle `via`. */
  datatype Pc =
    | Idle
    | Reading(via: HandleId, n: NodeId, i: nat, offset: int)
    | Writing(via: HandleId, n: NodeId, i: nat, mine: Slot)
    | Bumping(via: HandleId, n: NodeId, i: nat, mine: Slot)
    | Dropping(via: HandleId, n: NodeId, i: nat, mine: Slot, left: nat)
    | Rereading(via: HandleId, n: NodeId, i: nat)

  datatype State = State(
    count: u32,
    heap: Heap,
    handles: map<HandleId, NodeId>,
    threads: seq<Pc>,
    next: NodeId,
    torn: bool)

  /** How a caller works out the offset of slot `i`: running forward or backward from the parent's
      ends or from a sibling it holds. */
  datatype Route = FromStart | FromEnd | AfterSibling(j: nat) | BeforeSibling(j: nat)

  datatype Action =
    | Clone(via: HandleId, n: NodeId, h: HandleId)
    | Drop(h: HandleId)
    | Visit(t: nat, via: HandleId, n: NodeId, i: nat, route: Route)
    | Advance(t: nat)

  function EmptySlots(n: nat): seq<Slot> {
    seq(n, _ => Empty)
  }

  function NewTree(g: GreenNode, threads: nat): State {
    State(1, map[0 := Rec(None, Root(g), EmptySlots(|g.children|), None)], map[0 := 0], seq(threads, _ => Idle), 1, false)
  }

  type Heap = map<NodeId, Rec>

  predicate Shared(heap: Heap, n: NodeId) {
    n in heap && heap[n].owner.None?
  }

  predicate Borrowed(s: State, h: HandleId) {
    exists t | 0 <= t < |s.threads| :: !s.threads[t].Idle? && s.threads[t].via == h
  }

  // ----- the offset a route computes

  function SlotAt(s: State, slot: Slot): Option<Handle> {
    match slot
    case Empty => None
    case NodeSlot(id) => if id in s.heap then Some(s.heap[id].at) else None
    case TokenSlot(at) => Some(at)
  }

  function RouteOffset(s: State, n: NodeId, i: nat, route: Route): Option<int>
    requires n in s.heap && i < |s.heap[n].slots|
  {
    var at := s.heap[n].at;
    var cs := Kids(at);
    if |cs| != |s.heap[n].slots| then None else
    match route
    case FromStart => Some(RunForward(cs, 0, i, StartOf(at)))
    case FromEnd => Some(RunBackward(cs, |cs|, i, EndOf(at)))
    case AfterSibling(j) =>
      if j >= i then None else
      (match SlotAt(s, s.heap[n].slots[j])
       case Some(sibling) => Some(RunForward(cs, j + 1, i, EndOf(sibling)))
       case None => None)
    case BeforeSibling(j) =>
      if j <= i || j >= |cs| then None else
      (match SlotAt(s, s.heap[n].slots[j])
       case Some(sibling) => Some(RunBackward(cs, j, i, StartOf(sibling)))
       case None => None)
  }

  // ----- the steps

  function SetThread(s: State, t: nat, pc: Pc): State
    requires t < |s.threads|
  {
    s.(threads := s.threads[t := pc])
  }

  /** `fetch_sub(1)`; whoever observes 1 starts the teardown. */
  function Decrement(s: State): State {
    s.(count := WrappingDec(s.count), torn := s.torn || s.count == 1)
  }

  /** How much a losing element adds to the count before it is dropped. */
  function Compensation(mine: Slot): nat {
    match mine
    case Empty => 0
    case NodeSlot(_) => 2
    case TokenSlot(_) => 1
  }

  /** How many `SyntaxNode` destructors run when a losing element is destroyed: a node's own and that
      of the parent pointer in its data, or that of the token's parent pointer. */
  function Destructors(mine: Slot): nat {
    match mine
    case Empty => 0
    case NodeSlot(_) => 1 + 1
    case TokenSlot(_) => 1
  }

  /** The next step of a thread inside `get_or_add_element`; `None` is a panic or a dangling pointer. */
  function AdvanceThread(s: State, t: nat): Option<State>
    requires t < |s.threads|
  {
    var pc := s.threads[t];
    if pc.Idle? then None
    else if pc.n !in s.heap || pc.i >= |s.heap[pc.n].slots| then None
    else
      var rec := s.heap[pc.n];
      var filled := !rec.slots[pc.i].Empty?;
      match pc
      case Reading(via, n, i, offset) =>
        if filled then Some(SetThread(s, t, Idle))
        else if i >= |Kids(rec.at)| then None
        else if Kids(rec.at)[i].Token? then Some(SetThread(s, t, Writing(via, n, i, TokenSlot(Child(rec.at, i, offset)))))
        else
          var at := Child(rec.at, i, offset);
          var made := Rec(Some(n), at, EmptySlots(|Kids(at)|), Some(t));
          Some(SetThread(s, t, Writing(via, n, i, NodeSlot(s.next)))
               .(heap := s.heap[s.next := made], next := s.next + 1))
      case Writing(via, n, i, mine) =>
        if filled then Some(SetThread(s, t, Bumping(via, n, i, mine)))
        else Some(Publish(SetThread(s, t, Rereading(via, n, i)), n, i, mine))
      case Bumping(via, n, i, mine) =>
        if mine.NodeSlot? && mine.id !in s.heap then None
        else Some(SetThread(s, t, Dropping(via, n, i, mine, Destructors(mine))).(count := WrappingAdd(s.count, Compensation(mine))))
      case Dropping(via, n, i, mine, left) =>
        if mine.NodeSlot? && mine.id !in s.heap then None
        else if left > 1 then Some(SetThread(Decrement(s), t, Dropping(via, n, i, mine, left - 1)))
        else Some(Free(SetThread(Decrement(s), t, Rereading(via, n, i)), mine))
      case Rereading(via, n, i) =>
        if filled then Some(SetThread(s, t, Idle)) else None
  }

  function PublishedHeap(heap: Heap, n: NodeId, i: nat, mine: Slot): Heap
    requires n in heap && i < |heap[n].slots|
  {
    var h := heap[n := heap[n].(slots := heap[n].slots[i := mine])];
    if mine.NodeSlot? && mine.id in h then h[mine.id := h[mine.id].(owner := None)] else h
  }

  /** The slot takes the element, whose data is now reachable by every thread. */
  function Publish(s: State, n: NodeId, i: nat, mine: Slot): State
    requires n in s.heap && i < |s.heap[n].slots|
  {
    s.(heap := PublishedHeap(s.heap, n, i, mine))
  }

  function Free(s: State, mine: Slot): State {
    if mine.NodeSlot? then s.(heap := s.heap - {mine.id}) else s
  }

  /** One atomic step; `None` if it is not possible. Every step needs a live handle, and a handle
      that a thread borrows is not dropped: both are the borrow checker's doing. */
  function Apply(s: State, a: Action): Option<State> {
    match a
    case Clone(via, n, h) =>
      if via in s.handles && Shared(s.heap, n) && h !in s.handles
      then Some(s.(count := WrappingAdd(s.count, 1), handles := s.handles[h := n]))
      else None
    case Drop(h) =>
      if h in s.handles && !Borrowed(s, h) then Some(Decrement(s).(handles := s.handles - {h})) else None
    case Visit(t, via, n, i, route) =>
      if t < |s.threads| && s.threads[t].Idle? && via in s.handles && Shared(s.heap, n) && i < |s.heap[n].slots| then
        match RouteOffset(s, n, i, route)
        case Some(offset) => Some(SetThread(s, t, Reading(via, n, i, offset)))
        case None => None
      else None
    case Advance(t) => if t < |s.threads| then AdvanceThread(s, t) else None
  }

  // ----- the invariant

  /** What a thread has added to the count and not yet taken back. */
  function Debt(pc: Pc): nat {
    if pc.Dropping? then pc.left else 0
  }

  function Debts(threads: seq<Pc>): nat {
    if threads == [] then 0 else Debts(threads[..|threads| - 1]) + Debt(threads[|threads| - 1])
  }

  lemma {:induction false} DebtsUpdate(threads: seq<Pc>, t: nat, pc: Pc)
    requires t < |threads|
    ensures Debts(threads[t := pc]) == Debts(threads) - Debt(threads[t]) + Debt(pc)
    decreases threads
  {
    var n := |threads| - 1;
    if t == n {
      assert threads[t := pc][..n] == threads[..n];
    } else {
      DebtsUpdate(threads[..n], t, pc);
      assert threads[t := pc][..n] == threads[..n][t := pc];
    }
  }

  lemma {:induction false} NoDebts(threads: seq<Pc>)
    requires forall t | 0 <= t < |threads| :: threads[t].Idle?
    ensures Debts(threads) == 0
    decreases threads
  {
    if threads != [] {
      NoDebts(threads[..|threads| - 1]);
    }
  }

  /** Handles plus outstanding compensation. */
  function Owed(s: State): nat {
    |s.handles| + Debts(s.threads)
  }

  ghost predicate CountOk(s: State) {
    s.count == Wrap(Owed(s))
  }

  /** A record's place: the root's, or one under a published parent, at the one offset it can have. */
  ghost predicate RecOk(heap: Heap, next: NodeId, id: NodeId)
    requires id in heap
  {
    var rec := heap[id];
    && id < next
    && Valid(rec.at) && IsNode(rec.at) && |rec.slots| == |Kids(rec.at)|
    && (id == 0 <==> rec.parent.None?)
    && (id == 0 ==> rec.at.Root? && rec.owner.None?)
    && (id != 0 ==> Shared(heap, rec.parent.value) && rec.at.Child? && rec.at.parent == heap[rec.parent.value].at)
  }

  /** A filled slot holds the one element that belongs there. */
  ghost predicate SlotOk(heap: Heap, p: NodeId, i: nat)
    requires p in heap && i < |heap[p].slots|
  {
    match heap[p].slots[i]
    case Empty => true
    case NodeSlot(id) => Shared(heap, id) && heap[id].parent == Some(p) && heap[id].at.Child? && heap[id].at.index == i
    case TokenSlot(at) => i < |Kids(heap[p].at)| && at == ChildAt(heap[p].at, i) && GreenOf(at).Token?
  }

  predicate InHands(pc: Pc, id: NodeId) {
    (pc.Writing? || pc.Bumping? || pc.Dropping?) && pc.mine == NodeSlot(id)
  }

  /** A published record is the one its parent's slot holds; a private one is in its owner's hands. */
  ghost predicate Held(heap: Heap, threads: seq<Pc>, id: NodeId)
    requires id in heap
  {
    var rec := heap[id];
    match rec.owner
    case None =>
      id != 0 ==>
        && rec.parent.Some? && rec.parent.value in heap && rec.at.Child?
        && rec.at.index < |heap[rec.parent.value].slots|
        && heap[rec.parent.value].slots[rec.at.index] == NodeSlot(id)
    case Some(t) => t < |threads| && InHands(threads[t], id)
  }

  /** The element a thread has made and not published. */
  ghost predicate MineOk(heap: Heap, t: nat, n: NodeId, i: nat, mine: Slot)
    requires n in heap
  {
    match mine
    case Empty => false
    case NodeSlot(id) =>
      && id in heap && heap[id].owner == Some(t) && heap[id].parent == Some(n)
      && heap[id].at.Child? && heap[id].at.index == i
    case TokenSlot(at) => i < |Kids(heap[n].at)| && at == ChildAt(heap[n].at, i) && GreenOf(at).Token?
  }

  ghost predicate PcOk(heap: Heap, handles: map<HandleId, NodeId>, t: nat, pc: Pc) {
    pc.Idle? ||
    (&& pc.via in handles && Shared(heap, pc.n) && pc.i < |heap[pc.n].slots|
     && (pc.Reading? ==> pc.i < |Kids(heap[pc.n].at)| && pc.offset == StartOf(ChildAt(heap[pc.n].at, pc.i)))
     && (pc.Writing? || pc.Bumping? || pc.Dropping? ==> MineOk(heap, t, pc.n, pc.i, pc.mine))
     && (pc.Bumping? || pc.Dropping? || pc.Rereading? ==> !heap[pc.n].slots[pc.i].Empty?)
     && (pc.Dropping? ==> 1 <= pc.left <= Destructors(pc.mine)))
  }

  ghost predicate RecsOk(heap: Heap, next: NodeId) {
    0 in heap && forall id {:trigger RecOk(heap, next, id)} | id in heap :: RecOk(heap, next, id)
  }

  ghost predicate SlotsOk(heap: Heap) {
    forall p, i {:trigger SlotOk(heap, p, i)} | p in heap && 0 <= i < |heap[p].slots| :: SlotOk(heap, p, i)
  }

  ghost predicate AllHeld(heap: Heap, threads: seq<Pc>) {
    forall id {:trigger Held(heap, threads, id)} | id in heap :: Held(heap, threads, id)
  }

  ghost predicate HandlesOk(heap: Heap, handles: map<HandleId, NodeId>) {
    forall h | h in handles :: Shared(heap, handles[h])
  }

  ghost predicate ThreadsOk(heap: Heap, handles: map<HandleId, NodeId>, threads: seq<Pc>) {
    forall t | 0 <= t < |threads| :: PcOk(heap, handles, t, threads[t])
  }

  ghost predicate Shape(s: State) {
    && RecsOk(s.heap, s.next) && SlotsOk(s.heap) && AllHeld(s.heap, s.threads)
    && HandlesOk(s.heap, s.handles) && ThreadsOk(s.heap, s.handles, s.threads)
  }

  ghost predicate Inv(s: State) {
    CountOk(s) && Shape(s)
  }

  lemma NewTreeInv(g: GreenNode, threads: nat)
    requires Exact(g)
    ensures Inv(NewTree(g, threads))
  {
    var s := NewTree(g, threads);
    NoDebts(s.threads);
    assert RecOk(s.heap, s.next, 0);
  }

  // ----- what one thread does to the heap, seen by the others

  /** Records not owned by `t` stay, their filled slots too; no record moves. */
  ghost predicate Kept(heap: Heap, heap': Heap, t: nat) {
    && (forall id | id in heap && heap[id].owner != Some(t) :: id in heap' && heap'[id].owner == heap[id].owner)
    && (forall id | id in heap && id in heap' :: SamePlace(heap[id], heap'[id]))
  }

  ghost predicate SamePlace(rec: Rec, rec': Rec) {
    && rec'.parent == rec.parent && rec'.at == rec.at && |rec'.slots| == |rec.slots|
    && (forall i | 0 <= i < |rec.slots| && !rec.slots[i].Empty? :: rec'.slots[i] == rec.slots[i])
  }

  lemma KeptForOthers(heap: Heap, heap': Heap, handles: map<HandleId, NodeId>, threads: seq<Pc>, t: nat, pc: Pc)
    requires Kept(heap, heap', t) && t < |threads|
    requires ThreadsOk(heap, handles, threads) && PcOk(heap', handles, t, pc)
    ensures ThreadsOk(heap', handles, threads[t := pc])
  {
    var threads' := threads[t := pc];
    forall u | 0 <= u < |threads'| ensures PcOk(heap', handles, u, threads'[u]) {
      if u != t && !threads[u].Idle? {
        assert PcOk(heap, handles, u, threads[u]);
        assert SamePlace(heap[threads[u].n], heap'[threads[u].n]);
      }
    }
  }

  lemma KeptRecs(heap: Heap, heap': Heap, next: NodeId, t: nat, id: NodeId)
    requires Kept(heap, heap', t) && RecsOk(heap, next) && id in heap && id in heap'
    requires id == 0 ==> heap'[id].owner.None?
    ensures RecOk(heap', next, id)
  {
    assert RecOk(heap, next, id);
    assert SamePlace(heap[id], heap'[id]);
    if id != 0 {
      var p := heap[id].parent.value;
      assert SamePlace(heap[p], heap'[p]);
    }
  }

  /** A thread moves on and the heap stays as it is. */
  lemma ThreadMoves(heap: Heap, handles: map<HandleId, NodeId>, threads: seq<Pc>, t: nat, pc: Pc)
    requires t < |threads| && ThreadsOk(heap, handles, threads) && AllHeld(heap, threads)
    requires PcOk(heap, handles, t, pc)
    requires forall id | InHands(threads[t], id) :: InHands(pc, id)
    ensures ThreadsOk(heap, handles, threads[t := pc]) && AllHeld(heap, threads[t := pc])
  {
    KeptForOthers(heap, heap, handles, threads, t, pc);
    forall id | id in heap ensures Held(heap, threads[t := pc], id) {
      assert Held(heap, threads, id);
    }
  }

  function AllocatedHeap(heap: Heap, next: NodeId, t: nat, n: NodeId, i: nat): Heap
    requires n in heap && i < |Kids(heap[n].at)|
  {
    var at := ChildAt(heap[n].at, i);
    heap[next := Rec(Some(n), at, EmptySlots(|Kids(at)|), Some(t))]
  }

  /** A thread allocates a node for slot `i` of `n`. */
  lemma Allocates(heap: Heap, next: NodeId, threads: seq<Pc>, t: nat, n: NodeId, i: nat, pc: Pc)
    requires t < |threads| && RecsOk(heap, next) && SlotsOk(heap) && AllHeld(heap, threads)
    requires threads[t].Reading? && InHands(pc, next)
    requires Shared(heap, n) && i < |Kids(heap[n].at)| && Kids(heap[n].at)[i].Node?
    ensures var heap' := AllocatedHeap(heap, next, t, n, i);
      && next !in heap && Kept(heap, heap', t)
      && RecsOk(heap', next + 1) && SlotsOk(heap') && AllHeld(heap', threads[t := pc])
      && MineOk(heap', t, n, i, NodeSlot(next))
  {
    var heap' := AllocatedHeap(heap, next, t, n, i);
    assert next !in heap by { assert next in heap ==> RecOk(heap, next, next); }
    assert RecsOk(heap', next + 1) by {
      forall id | id in heap' ensures RecOk(heap', next + 1, id) {
        AllocatedRec(heap, next, t, n, i, id);
      }
    }
    AllocatedHeld(heap, next, threads, t, n, i, pc);
    AllocatedSlots(heap, next, t, n, i);
  }

  lemma AllocatedHeld(heap: Heap, next: NodeId, threads: seq<Pc>, t: nat, n: NodeId, i: nat, pc: Pc)
    requires t < |threads| && next !in heap && n in heap && i < |Kids(heap[n].at)| && AllHeld(heap, threads)
    requires threads[t].Reading? && InHands(pc, next)
    ensures AllHeld(AllocatedHeap(heap, next, t, n, i), threads[t := pc])
  {
    var heap' := AllocatedHeap(heap, next, t, n, i);
    forall id | id in heap' ensures Held(heap', threads[t := pc], id) {
      assert id != next ==> Held(heap, threads, id);
    }
  }

  lemma AllocatedSlots(heap: Heap, next: NodeId, t: nat, n: NodeId, i: nat)
    requires next !in heap && n in heap && i < |Kids(heap[n].at)| && SlotsOk(heap)
    ensures SlotsOk(AllocatedHeap(heap, next, t, n, i))
  {
    var heap' := AllocatedHeap(heap, next, t, n, i);
    forall p, j | p in heap' && 0 <= j < |heap'[p].slots| ensures SlotOk(heap', p, j) {
      assert p != next ==> SlotOk(heap, p, j);
    }
  }

  lemma AllocatedRec(heap: Heap, next: NodeId, t: nat, n: NodeId, i: nat, id: NodeId)
    requires RecsOk(heap, next) && next !in heap
    requires Shared(heap, n) && i < |Kids(heap[n].at)| && Kids(heap[n].at)[i].Node?
    requires id in AllocatedHeap(heap, next, t, n, i)
    ensures RecOk(AllocatedHeap(heap, next, t, n, i), next + 1, id)
  {
    if id == next {
      assert RecOk(heap, next, n) && RecOk(heap, next, 0);
      ChildIsValid(heap[n].at, i);
    } else {
      assert RecOk(heap, next, id);
    }
  }

  /** A thread that lost the race frees its node. */
  lemma Frees(heap: Heap, next: NodeId, threads: seq<Pc>, t: nat, n: NodeId, i: nat, id: NodeId, pc: Pc)
    requires t < |threads| && RecsOk(heap, next) && SlotsOk(heap) && AllHeld(heap, threads)
    requires Shared(heap, n) && MineOk(heap, t, n, i, NodeSlot(id)) && threads[t].Dropping? && threads[t].mine == NodeSlot(id)
    ensures var heap' := heap - {id};
      && Kept(heap, heap', t)
      && RecsOk(heap', next) && SlotsOk(heap') && AllHeld(heap', threads[t := pc])
  {
    var heap' := heap - {id};
    assert Kept(heap, heap', t) by {
      forall x | x in heap && heap[x].owner != Some(t) ensures x in heap' {}
    }
    assert RecOk(heap, next, 0);
    forall x | x in heap' ensures RecOk(heap', next, x) && Held(heap', threads[t := pc], x) {
      assert RecOk(heap, next, x) && Held(heap, threads, x);
    }
    forall p, j | p in heap' && 0 <= j < |heap'[p].slots| ensures SlotOk(heap', p, j) {
      assert SlotOk(heap, p, j);
    }
  }

  lemma PublishKeeps(heap: Heap, t: nat, n: NodeId, i: nat, mine: Slot)
    requires Shared(heap, n) && i < |heap[n].slots| && heap[n].slots[i].Empty? && MineOk(heap, t, n, i, mine)
    ensures Kept(heap, PublishedHeap(heap, n, i, mine), t)
  {
  }

  /** A thread that won the race fills the slot. */
  lemma Publishes(heap: Heap, next: NodeId, threads: seq<Pc>, t: nat, n: NodeId, i: nat, mine: Slot, pc: Pc)
    requires t < |threads| && RecsOk(heap, next) && SlotsOk(heap) && AllHeld(heap, threads)
    requires Shared(heap, n) && i < |heap[n].slots| && heap[n].slots[i].Empty? && MineOk(heap, t, n, i, mine)
    requires threads[t].Writing? && threads[t].mine == mine
    ensures var heap' := PublishedHeap(heap, n, i, mine);
      RecsOk(heap', next) && SlotsOk(heap') && AllHeld(heap', threads[t := pc])
  {
    var heap' := PublishedHeap(heap, n, i, mine);
    PublishKeeps(heap, t, n, i, mine);
    forall id | id in heap' ensures RecOk(heap', next, id) {
      assert RecOk(heap, next, id);
      KeptRecs(heap, heap', next, t, id);
    }
    PublishedSlots(heap, next, t, n, i, mine);
    PublishedHeld(heap, next, threads, t, n, i, mine, pc);
  }

  lemma PublishedSlots(heap: Heap, next: NodeId, t: nat, n: NodeId, i: nat, mine: Slot)
    requires RecsOk(heap, next) && SlotsOk(heap)
    requires Shared(heap, n) && i < |heap[n].slots| && heap[n].slots[i].Empty? && MineOk(heap, t, n, i, mine)
    ensures SlotsOk(PublishedHeap(heap, n, i, mine))
  {
    var heap' := PublishedHeap(heap, n, i, mine);
    forall p, j | p in heap' && 0 <= j < |heap'[p].slots| ensures SlotOk(heap', p, j) {
      PublishedSlot(heap, next, t, n, i, mine, p, j);
    }
  }

  lemma PublishedSlot(heap: Heap, next: NodeId, t: nat, n: NodeId, i: nat, mine: Slot, p: NodeId, j: nat)
    requires SlotsOk(heap)
    requires Shared(heap, n) && i < |heap[n].slots| && heap[n].slots[i].Empty? && MineOk(heap, t, n, i, mine)
    requires var heap' := PublishedHeap(heap, n, i, mine); p in heap' && j < |heap'[p].slots|
    ensures SlotOk(PublishedHeap(heap, n, i, mine), p, j)
  {
    assert SlotOk(heap, p, j);
    PublishKeeps(heap, t, n, i, mine);
    var heap' := PublishedHeap(heap, n, i, mine);
    assert SamePlace(heap[p], heap'[p]);
    if p == n && j == i {
      assert heap'[p].slots[j] == mine;
    } else {
      assert heap'[p].slots[j] == heap[p].slots[j];
      if heap[p].slots[j].NodeSlot? {
        assert SamePlace(heap[heap[p].slots[j].id], heap'[heap[p].slots[j].id]);
      }
    }
  }

  lemma PublishedHeld(heap: Heap, next: NodeId, threads: seq<Pc>, t: nat, n: NodeId, i: nat, mine: Slot, pc: Pc)
    requires t < |threads| && RecsOk(heap, next) && AllHeld(heap, threads)
    requires Shared(heap, n) && i < |heap[n].slots| && heap[n].slots[i].Empty? && MineOk(heap, t, n, i, mine)
    requires threads[t].Writing? && threads[t].mine == mine
    ensures AllHeld(PublishedHeap(heap, n, i, mine), threads[t := pc])
  {
    var heap' := PublishedHeap(heap, n, i, mine);
    PublishKeeps(heap, t, n, i, mine);
    forall id | id in heap' ensures Held(heap', threads[t := pc], id) {
      assert RecOk(heap, next, id) && Held(heap, threads, id);
      StillHeld(heap, heap', threads, t, n, i, mine, pc, id);
    }
  }

  lemma StillHeld(heap: Heap, heap': Heap, threads: seq<Pc>, t: nat, n: NodeId, i: nat, mine: Slot, pc: Pc, id: NodeId)
    requires t < |threads| && threads[t].Writing? && threads[t].mine == mine
    requires Shared(heap, n) && i < |heap[n].slots| && heap[n].slots[i].Empty? && MineOk(heap, t, n, i, mine)
    requires heap' == PublishedHeap(heap, n, i, mine) && Kept(heap, heap', t)
    requires id in heap && id in heap' && Held(heap, threads, id)
    ensures Held(heap', threads[t := pc], id)
  {
    assert SamePlace(heap[id], heap'[id]);
    if mine == NodeSlot(id) {
      assert heap'[n].slots[i] == NodeSlot(id);
    } else if id != 0 && heap[id].owner.None? {
      assert SamePlace(heap[heap[id].parent.value], heap'[heap[id].parent.value]);
    }
  }

  // ----- every step keeps the invariant

  /** Whatever route a caller comes by, it computes the one offset the slot's element can have. */
  lemma RouteIsCanonical(s: State, n: NodeId, i: nat, route: Route)
    requires RecsOk(s.heap, s.next) && SlotsOk(s.heap)
    requires n in s.heap && i < |s.heap[n].slots| && RouteOffset(s, n, i, route).Some?
    ensures i < |Kids(s.heap[n].at)| && RouteOffset(s, n, i, route).value == StartOf(ChildAt(s.heap[n].at, i))
  {
    assert RecOk(s.heap, s.next, n);
    var j := if route.AfterSibling? || route.BeforeSibling? then route.j else 0;
    SiblingInPlace(s, n, j);
    RunsAreCanonical(s.heap[n].at, i, j);
  }

  /** A navigation step that ends at child `i` of `n` asked for the offset of the route. */
  predicate TakesRoute(s: State, n: NodeId, i: nat, route: Route, step: Option<Handle>)
    requires n in s.heap && i < |s.heap[n].slots|
  {
    RouteOffset(s, n, i, route).Some? ==> Asks(step, s.heap[n].at, i, RouteOffset(s, n, i, route).value)
  }

  /** The navigation functions come by these routes: from a parent or from a sibling, over all elements or
      over nodes alone. */
  lemma ParentStepsTakeRoutes(s: State, n: NodeId, i: nat)
    requires n in s.heap && i < |s.heap[n].slots|
    ensures var at := s.heap[n].at;
      && TakesRoute(s, n, i, FromStart, FirstChildOrToken(at)) && TakesRoute(s, n, i, FromStart, FirstChild(at))
      && TakesRoute(s, n, i, FromEnd, LastChildOrToken(at)) && TakesRoute(s, n, i, FromEnd, LastChild(at))
  {
    if i < |Kids(s.heap[n].at)| {
      FirstsAsk(s.heap[n].at, i);
      LastsAsk(s.heap[n].at, i);
    }
  }

  lemma SiblingStepsTakeRoutes(s: State, n: NodeId, i: nat, j: nat)
    requires RecsOk(s.heap, s.next) && SlotsOk(s.heap) && n in s.heap
    requires i < |s.heap[n].slots| && j < |s.heap[n].slots| && SlotAt(s, s.heap[n].slots[j]).Some?
    ensures var sibling := SlotAt(s, s.heap[n].slots[j]).value;
      && TakesRoute(s, n, i, AfterSibling(j), NextSiblingOrToken(sibling))
      && TakesRoute(s, n, i, AfterSibling(j), NextSibling(sibling))
      && TakesRoute(s, n, i, BeforeSibling(j), PrevSiblingOrToken(sibling))
      && TakesRoute(s, n, i, BeforeSibling(j), PrevSibling(sibling))
  {
    SiblingInPlace(s, n, j);
    StepsFromSibling(s, n, i, j);
  }

  lemma StepsFromSibling(s: State, n: NodeId, i: nat, j: nat)
    requires n in s.heap && i < |s.heap[n].slots| && j < |s.heap[n].slots|
    requires j < |Kids(s.heap[n].at)| && SlotAt(s, s.heap[n].slots[j]) == Some(ChildAt(s.heap[n].at, j))
    ensures var sibling := ChildAt(s.heap[n].at, j);
      && TakesRoute(s, n, i, AfterSibling(j), NextSiblingOrToken(sibling))
      && TakesRoute(s, n, i, AfterSibling(j), NextSibling(sibling))
      && TakesRoute(s, n, i, BeforeSibling(j), PrevSiblingOrToken(sibling))
      && TakesRoute(s, n, i, BeforeSibling(j), PrevSibling(sibling))
  {
    if i < |Kids(s.heap[n].at)| {
      NextsAsk(s.heap[n].at, i, j);
      PrevsAsk(s.heap[n].at, i, j);
    }
  }

  lemma SiblingInPlace(s: State, n: NodeId, j: nat)
    requires RecsOk(s.heap, s.next) && SlotsOk(s.heap) && n in s.heap
    ensures j < |s.heap[n].slots| && SlotAt(s, s.heap[n].slots[j]).Some? ==>
              && j < |Kids(s.heap[n].at)|
              && SlotAt(s, s.heap[n].slots[j]) == Some(ChildAt(s.heap[n].at, j))
  {
    assert RecOk(s.heap, s.next, n);
    if j < |s.heap[n].slots| {
      assert SlotOk(s.heap, n, j);
      if s.heap[n].slots[j].NodeSlot? {
        assert RecOk(s.heap, s.next, s.heap[n].slots[j].id);
      }
    }
  }

  lemma OwedMoves(s: State, t: nat, pc: Pc)
    requires t < |s.threads|
    ensures Owed(SetThread(s, t, pc)) == Owed(s) - Debt(s.threads[t]) + Debt(pc)
  {
    DebtsUpdate(s.threads, t, pc);
  }

  lemma CountMoves(s: State, t: nat, pc: Pc)
    requires CountOk(s) && t < |s.threads| && Debt(pc) == Debt(s.threads[t])
    ensures CountOk(SetThread(s, t, pc))
  {
    OwedMoves(s, t, pc);
  }

  lemma CountClones(s: State, n: NodeId, h: HandleId)
    requires CountOk(s) && h !in s.handles
    ensures CountOk(s.(count := WrappingAdd(s.count, 1), handles := s.handles[h := n]))
  {
    assert |s.handles[h := n]| == |s.handles| + 1;
    WrappingIsWrap(Owed(s), 1);
  }

  lemma CountDrops(s: State, h: HandleId)
    requires CountOk(s) && h in s.handles
    ensures CountOk(Decrement(s).(handles := s.handles - {h})) && |s.handles - {h}| == |s.handles| - 1
  {
    assert s.handles == (s.handles - {h})[h := s.handles[h]];
    WrappingIsWrap(Owed(s), 0);
  }

  /** The count follows handles and debts through every step. */
  lemma ApplyKeepsCount(s: State, a: Action)
    requires CountOk(s) && Apply(s, a).Some?
    requires a.Advance? && s.threads[a.t].Dropping? ==> s.threads[a.t].left >= 1
    ensures CountOk(Apply(s, a).value)
  {
    match a
    case Clone(_, n, h) => CountClones(s, n, h);
    case Drop(h) => CountDrops(s, h);
    case Visit(t, _, _, _, _) => CountMoves(s, t, Apply(s, a).value.threads[t]);
    case Advance(t) =>
      AdvanceIsCountStep(s, t, Apply(s, a).value);
      CountAdvances(s, t, Apply(s, a).value);
  }

  /** What a thread's next step does to the count, and to its own debt. */
  ghost predicate CountStep(s: State, t: nat, s': State)
    requires t < |s.threads|
  {
    var pc := s.threads[t];
    && |s'.threads| == |s.threads| && s'.threads == s.threads[t := s'.threads[t]] && s'.handles == s.handles
    && (if pc.Bumping? then
          s'.count == WrappingAdd(s.count, Compensation(pc.mine)) && Debt(s'.threads[t]) == Destructors(pc.mine)
        else if pc.Dropping? then s'.count == WrappingDec(s.count) && Debt(s'.threads[t]) == pc.left - 1
        else s'.count == s.count && Debt(s'.threads[t]) == 0)
  }

  lemma AdvanceIsCountStep(s: State, t: nat, s': State)
    requires t < |s.threads| && AdvanceThread(s, t) == Some(s')
    requires s.threads[t].Dropping? ==> s.threads[t].left >= 1
    ensures CountStep(s, t, s')
  {
  }

  lemma CountAdvances(s: State, t: nat, s': State)
    requires CountOk(s) && t < |s.threads| && CountStep(s, t, s')
    ensures CountOk(s')
  {
    var pc := s.threads[t];
    OwedMoves(s, t, s'.threads[t]);
    assert Owed(s') == Owed(SetThread(s, t, s'.threads[t]));
    WrappingIsWrap(Owed(s), Compensation(if pc.Bumping? then pc.mine else Empty));
  }

  lemma CloneKeepsShape(s: State, n: NodeId, h: HandleId)
    requires Shape(s) && Shared(s.heap, n)
    ensures Shape(s.(count := WrappingAdd(s.count, 1), handles := s.handles[h := n]))
  {
    MoreHandles(s.heap, s.handles, s.threads, n, h);
  }

  lemma MoreHandles(heap: Heap, handles: map<HandleId, NodeId>, threads: seq<Pc>, n: NodeId, h: HandleId)
    requires HandlesOk(heap, handles) && ThreadsOk(heap, handles, threads) && Shared(heap, n)
    ensures HandlesOk(heap, handles[h := n]) && ThreadsOk(heap, handles[h := n], threads)
  {
    forall t | 0 <= t < |threads| ensures PcOk(heap, handles[h := n], t, threads[t]) {
      assert PcOk(heap, handles, t, threads[t]);
    }
  }

  lemma DropKeepsShape(s: State, h: HandleId)
    requires Shape(s) && h in s.handles && !Borrowed(s, h)
    ensures Shape(Decrement(s).(handles := s.handles - {h}))
  {
    FewerHandles(s.heap, s.handles, s.threads, h);
  }

  lemma FewerHandles(heap: Heap, handles: map<HandleId, NodeId>, threads: seq<Pc>, h: HandleId)
    requires HandlesOk(heap, handles) && ThreadsOk(heap, handles, threads)
    requires forall t | 0 <= t < |threads| :: !threads[t].Idle? ==> threads[t].via != h
    ensures HandlesOk(heap, handles - {h}) && ThreadsOk(heap, handles - {h}, threads)
  {
    forall t | 0 <= t < |threads| ensures PcOk(heap, handles - {h}, t, threads[t]) {
      assert PcOk(heap, handles, t, threads[t]);
    }
  }

  lemma SetThreadKeepsShape(s: State, t: nat, pc: Pc)
    requires Shape(s) && t < |s.threads| && PcOk(s.heap, s.handles, t, pc)
    requires forall id | InHands(s.threads[t], id) :: InHands(pc, id)
    ensures Shape(SetThread(s, t, pc))
  {
    ThreadMoves(s.heap, s.handles, s.threads, t, pc);
  }

  lemma VisitKeepsShape(s: State, a: Action)
    requires Shape(s) && a.Visit? && Apply(s, a).Some?
    ensures Shape(Apply(s, a).value)
  {
    RouteIsCanonical(s, a.n, a.i, a.route);
    var pc := Reading(a.via, a.n, a.i, RouteOffset(s, a.n, a.i, a.route).value);
    SetThreadKeepsShape(s, a.t, pc);
  }

  /** The steps that change neither the heap nor the count. */
  lemma LookingKeepsShape(s: State, t: nat, s': State)
    requires Shape(s) && t < |s.threads| && AdvanceThread(s, t) == Some(s')
    requires var pc := s.threads[t];
      pc.Rereading? || ((pc.Reading? || pc.Writing?) && !s.heap[pc.n].slots[pc.i].Empty?)
    ensures Shape(s')
  {
    var pc := s.threads[t];
    assert PcOk(s.heap, s.handles, t, pc);
    SetThreadKeepsShape(s, t, if pc.Writing? then Bumping(pc.via, pc.n, pc.i, pc.mine) else Idle);
  }

  lemma CountingKeepsShape(s: State, t: nat, s': State)
    requires Shape(s) && t < |s.threads| && AdvanceThread(s, t) == Some(s')
    requires s.threads[t].Bumping? || (s.threads[t].Dropping? && (s.threads[t].left > 1 || s.threads[t].mine.TokenSlot?))
    ensures Shape(s')
  {
    var pc := s.threads[t];
    assert PcOk(s.heap, s.handles, t, pc);
    ThreadMoves(s.heap, s.handles, s.threads, t, s'.threads[t]);
  }

  lemma FreeingKeepsShape(s: State, t: nat, s': State)
    requires Shape(s) && t < |s.threads| && AdvanceThread(s, t) == Some(s')
    requires s.threads[t].Dropping? && s.threads[t].left == 1 && s.threads[t].mine.NodeSlot?
    ensures Shape(s')
  {
    var pc := s.threads[t];
    assert PcOk(s.heap, s.handles, t, pc);
    Frees(s.heap, s.next, s.threads, t, pc.n, pc.i, pc.mine.id, s'.threads[t]);
    KeptForOthers(s.heap, s'.heap, s.handles, s.threads, t, s'.threads[t]);
    KeptHandles(s.heap, s'.heap, s.handles, t);
  }

  lemma KeptHandles(heap: Heap, heap': Heap, handles: map<HandleId, NodeId>, t: nat)
    requires Kept(heap, heap', t) && HandlesOk(heap, handles)
    ensures HandlesOk(heap', handles)
  {
  }

  lemma TokenInHand(heap: Heap, handles: map<HandleId, NodeId>, t: nat, pc: Pc)
    requires PcOk(heap, handles, t, pc) && pc.Reading? && Kids(heap[pc.n].at)[pc.i].Token?
    ensures PcOk(heap, handles, t, Writing(pc.via, pc.n, pc.i, TokenSlot(ChildAt(heap[pc.n].at, pc.i))))
  {
  }

  lemma MakingTokenKeepsShape(s: State, t: nat, s': State)
    requires Shape(s) && t < |s.threads| && PcOk(s.heap, s.handles, t, s.threads[t])
    requires var pc := s.threads[t];
      pc.Reading? && s.heap[pc.n].slots[pc.i].Empty? && Kids(s.heap[pc.n].at)[pc.i].Token?
    requires AdvanceThread(s, t) == Some(s')
    ensures Shape(s')
  {
    var Reading(via, n, i, _) := s.threads[t];
    TokenStep(s, t);
    TokenInHand(s.heap, s.handles, t, s.threads[t]);
    SetThreadKeepsShape(s, t, Writing(via, n, i, TokenSlot(ChildAt(s.heap[n].at, i))));
  }

  lemma MakingNodeKeepsShape(s: State, t: nat, s': State)
    requires Shape(s) && t < |s.threads| && PcOk(s.heap, s.handles, t, s.threads[t])
    requires var pc := s.threads[t];
      pc.Reading? && s.heap[pc.n].slots[pc.i].Empty? && Kids(s.heap[pc.n].at)[pc.i].Node?
    requires AdvanceThread(s, t) == Some(s')
    ensures Shape(s')
  {
    AllocationStep(s, t);
    AllocatedShape(s, t);
  }

  lemma TokenStep(s: State, t: nat)
    requires t < |s.threads| && s.threads[t].Reading?
    requires var pc := s.threads[t];
      && pc.n in s.heap && pc.i < |s.heap[pc.n].slots| && s.heap[pc.n].slots[pc.i].Empty?
      && pc.i < |Kids(s.heap[pc.n].at)| && Kids(s.heap[pc.n].at)[pc.i].Token?
      && pc.offset == StartOf(ChildAt(s.heap[pc.n].at, pc.i))
    ensures var pc := s.threads[t];
      AdvanceThread(s, t) ==
        Some(SetThread(s, t, Writing(pc.via, pc.n, pc.i, TokenSlot(ChildAt(s.heap[pc.n].at, pc.i)))))
  {
  }

  lemma AllocationStep(s: State, t: nat)
    requires t < |s.threads| && s.threads[t].Reading?
    requires var pc := s.threads[t];
      && pc.n in s.heap && pc.i < |s.heap[pc.n].slots| && s.heap[pc.n].slots[pc.i].Empty?
      && pc.i < |Kids(s.heap[pc.n].at)| && Kids(s.heap[pc.n].at)[pc.i].Node?
      && pc.offset == StartOf(ChildAt(s.heap[pc.n].at, pc.i))
    ensures var pc := s.threads[t];
      AdvanceThread(s, t) ==
        Some(SetThread(s, t, Writing(pc.via, pc.n, pc.i, NodeSlot(s.next)))
             .(heap := AllocatedHeap(s.heap, s.next, t, pc.n, pc.i), next := s.next + 1))
  {
  }

  lemma AllocatedShape(s: State, t: nat)
    requires Shape(s) && t < |s.threads| && s.threads[t].Reading?
    requires var pc := s.threads[t];
      Shared(s.heap, pc.n) && pc.i < |Kids(s.heap[pc.n].at)| && Kids(s.heap[pc.n].at)[pc.i].Node?
    ensures var pc := s.threads[t];
      Shape(SetThread(s, t, Writing(pc.via, pc.n, pc.i, NodeSlot(s.next)))
            .(heap := AllocatedHeap(s.heap, s.next, t, pc.n, pc.i), next := s.next + 1))
  {
    var Reading(via, n, i, offset) := s.threads[t];
    var pc' := Writing(via, n, i, NodeSlot(s.next));
    var heap' := AllocatedHeap(s.heap, s.next, t, n, i);
    assert PcOk(s.heap, s.handles, t, s.threads[t]);
    Allocates(s.heap, s.next, s.threads, t, n, i, pc');
    assert PcOk(heap', s.handles, t, pc');
    KeptForOthers(s.heap, heap', s.handles, s.threads, t, pc');
    KeptHandles(s.heap, heap', s.handles, t);
  }

  lemma PublishingKeepsShape(s: State, t: nat, s': State)
    requires Shape(s) && t < |s.threads| && AdvanceThread(s, t) == Some(s')
    requires var pc := s.threads[t]; pc.Writing? && s.heap[pc.n].slots[pc.i].Empty?
    ensures Shape(s')
  {
    var Writing(via, n, i, mine) := s.threads[t];
    var pc' := Rereading(via, n, i);
    var heap' := PublishedHeap(s.heap, n, i, mine);
    assert PcOk(s.heap, s.handles, t, s.threads[t]);
    PublishKeeps(s.heap, t, n, i, mine);
    Publishes(s.heap, s.next, s.threads, t, n, i, mine, pc');
    assert PcOk(heap', s.handles, t, pc');
    KeptForOthers(s.heap, heap', s.handles, s.threads, t, pc');
    KeptHandles(s.heap, heap', s.handles, t);
    assert s' == SetThread(s, t, pc').(heap := heap');
  }

  /** Every step of every thread keeps the invariant. */
  lemma ApplyKeepsInv(s: State, a: Action)
    requires Inv(s) && Apply(s, a).Some?
    ensures Inv(Apply(s, a).value)
  {
    if a.Advance? {
      assert PcOk(s.heap, s.handles, a.t, s.threads[a.t]);
    }
    ApplyKeepsCount(s, a);
    ApplyKeepsShape(s, a);
  }

  lemma ApplyKeepsShape(s: State, a: Action)
    requires Shape(s) && Apply(s, a).Some?
    ensures Shape(Apply(s, a).value)
  {
    match a
    case Clone(_, n, h) => CloneKeepsShape(s, n, h);
    case Drop(h) => DropKeepsShape(s, h);
    case Visit(_, _, _, _, _) => VisitKeepsShape(s, a);
    case Advance(t) => AdvanceKeepsShape(s, t, Apply(s, a).value);
  }

  lemma AdvanceKeepsShape(s: State, t: nat, s': State)
    requires Shape(s) && t < |s.threads| && AdvanceThread(s, t) == Some(s')
    ensures Shape(s')
  {
    var pc := s.threads[t];
    if pc.Bumping? || (pc.Dropping? && (pc.left > 1 || pc.mine.TokenSlot?)) {
      CountingKeepsShape(s, t, s');
    } else if pc.Dropping? {
      assert PcOk(s.heap, s.handles, t, pc);
      FreeingKeepsShape(s, t, s');
    } else if pc.Reading? && s.heap[pc.n].slots[pc.i].Empty? {
      assert PcOk(s.heap, s.handles, t, pc);
      if Kids(s.heap[pc.n].at)[pc.i].Token? {
        MakingTokenKeepsShape(s, t, s');
      } else {
        MakingNodeKeepsShape(s, t, s');
      }
    } else if pc.Writing? && s.heap[pc.n].slots[pc.i].Empty? {
      PublishingKeepsShape(s, t, s');
    } else {
      LookingKeepsShape(s, t, s');
    }
  }

  // ----- no step gets stuck

  /** Whatever the other threads do, a thread inside `get_or_add_element` can take its next step: no
      pointer it follows dangles and the final `unwrap` finds an element. */
  lemma ThreadsNeverStick(s: State, t: nat)
    requires Inv(s) && t < |s.threads| && !s.threads[t].Idle?
    ensures AdvanceThread(s, t).Some?
  {
    assert PcOk(s.heap, s.handles, t, s.threads[t]);
    assert RecOk(s.heap, s.next, s.threads[t].n);
    NotStuck(s, t);
  }

  lemma NotStuck(s: State, t: nat)
    requires t < |s.threads| && !s.threads[t].Idle? && PcOk(s.heap, s.handles, t, s.threads[t])
    requires var rec := s.heap[s.threads[t].n]; |rec.slots| == |Kids(rec.at)|
    ensures AdvanceThread(s, t).Some?
  {
  }

  /** Steps a thread may still have to take before its call returns. */
  function Rank(pc: Pc): nat {
    match pc
    case Idle => 0
    case Rereading(_, _, _) => 1
    case Dropping(_, _, _, _, left) => 1 + left
    case Bumping(_, _, _, mine) => 2 + Destructors(mine)
    case Writing(_, _, _, mine) => 3 + Destructors(mine)
    case Reading(_, _, _, _) => 6
  }

  /** Every call returns after at most six steps of its own thread. */
  lemma CallsReturn(s: State, t: nat, s': State)
    requires t < |s.threads| && PcOk(s.heap, s.handles, t, s.threads[t]) && AdvanceThread(s, t) == Some(s')
    ensures t < |s'.threads| && Rank(s'.threads[t]) < Rank(s.threads[t]) <= 6
  {
  }

  // ----- who starts the teardown

  /** What a step's `fetch_sub`, if it makes one, observes. */
  function Observed(s: State, a: Action): Option<u32> {
    match a
    case Drop(_) => Some(s.count)
    case Advance(t) => if t < |s.threads| && s.threads[t].Dropping? then Some(s.count) else None
    case _ => None
  }

  lemma {:induction false} DebtInDebts(threads: seq<Pc>, t: nat)
    requires t < |threads|
    ensures Debt(threads[t]) <= Debts(threads)
    decreases threads
  {
    if t < |threads| - 1 {
      DebtInDebts(threads[..|threads| - 1], t);
    }
  }

  lemma OnlyHandle(handles: map<HandleId, NodeId>, h: HandleId, g: HandleId)
    requires |handles| == 1 && h in handles && g in handles
    ensures g == h
  {
    var rest := handles - {h};
    assert handles == rest[h := handles[h]];
    assert rest == map[];
  }

  lemma SomeHandle(handles: map<HandleId, NodeId>, h: HandleId)
    requires h in handles
    ensures |handles| >= 1
  {
    assert handles == (handles - {h})[h := handles[h]];
  }

  lemma CallBorrows(s: State, h: HandleId, t: nat)
    requires Inv(s) && |s.handles| == 1 && h in s.handles && t < |s.threads|
    ensures s.threads[t].Idle? || Borrowed(s, h)
  {
    if !s.threads[t].Idle? {
      assert PcOk(s.heap, s.handles, t, s.threads[t]);
      OnlyHandle(s.handles, h, s.threads[t].via);
    }
  }

  /** While the last handle is dropped, nobody is inside a call and nothing is owed. */
  lemma LastHandleIsQuiet(s: State, h: HandleId)
    requires Inv(s) && Apply(s, Drop(h)).Some? && |s.handles| == 1
    ensures (forall t | 0 <= t < |s.threads| :: s.threads[t].Idle?) && Owed(s) == 1
    ensures Apply(s, Drop(h)).value.handles == map[]
  {
    forall t | 0 <= t < |s.threads| ensures s.threads[t].Idle? {
      CallBorrows(s, h, t);
    }
    NoDebts(s.threads);
    CountDrops(s, h);
  }

  /** Exactly one owed means exactly the drop of the last handle; and a `fetch_sub` observes 1
      exactly when one is owed modulo 2^32. */
  lemma TeardownStartsExactly(s: State, a: Action)
    requires Inv(s) && Apply(s, a).Some? && Observed(s, a).Some?
    ensures Owed(s) == 1 <==> a.Drop? && |s.handles| == 1
    ensures Observed(s, a) == Some(1) <==> Wrap(Owed(s)) == 1
    ensures Owed(s) >= 1
  {
    if a.Advance? {
      assert PcOk(s.heap, s.handles, a.t, s.threads[a.t]);
      SomeHandle(s.handles, s.threads[a.t].via);
      DebtInDebts(s.threads, a.t);
    } else {
      SomeHandle(s.handles, a.h);
      if |s.handles| == 1 {
        LastHandleIsQuiet(s, a.h);
      }
    }
  }

  /** With fewer than 2^32 handles and debts, the `fetch_sub` that observes 1 is the drop of the last
      handle and no other, compensating threads included. */
  lemma OnlyTheLastDropTearsDown(s: State, a: Action)
    requires Inv(s) && Owed(s) < TWO32 && Apply(s, a).Some?
    ensures Observed(s, a) == Some(1) <==> a.Drop? && |s.handles| == 1
    ensures Apply(s, a).value.torn <==> s.torn || (a.Drop? && |s.handles| == 1)
  {
    if Observed(s, a).Some? {
      TeardownStartsExactly(s, a);
      WrapSmall(Owed(s));
    }
    TornByObservingOne(s, a);
  }

  lemma TornByObservingOne(s: State, a: Action)
    requires Apply(s, a).Some?
    ensures Apply(s, a).value.torn <==> s.torn || Observed(s, a) == Some(1)
  {
  }

  // ----- whole interleavings

  function Run(s: State, actions: seq<Action>): Option<State> {
    if actions == [] then Some(s) else
    match Run(s, actions[..|actions| - 1])
    case Some(s') => Apply(s', actions[|actions| - 1])
    case None => None
  }

  /** Handles and debts never reach 2^32 along the run. */
  ghost predicate Bounded(s: State, actions: seq<Action>) {
    actions == [] ||
    (Bounded(s, actions[..|actions| - 1]) &&
     (Run(s, actions[..|actions| - 1]).Some? ==> Owed(Run(s, actions[..|actions| - 1]).value) < TWO32))
  }

  /** The number of `fetch_sub`s along the run that observed 1. */
  function Teardowns(s: State, actions: seq<Action>): nat {
    if actions == [] then 0 else
    match Run(s, actions[..|actions| - 1])
    case Some(s') => Teardowns(s, actions[..|actions| - 1]) + if Observed(s', actions[|actions| - 1]) == Some(1) then 1 else 0
    case None => 0
  }

  /** In every interleaving of every number of threads: the count is handles plus outstanding
      compensation, modulo 2^32, and every pointer, slot and stored offset is in order. */
  lemma {:induction false} RunKeepsInv(s: State, actions: seq<Action>)
    requires Inv(s) && Run(s, actions).Some?
    ensures Inv(Run(s, actions).value)
    decreases actions
  {
    if actions != [] {
      var front := actions[..|actions| - 1];
      RunKeepsInv(s, front);
      ApplyKeepsInv(Run(s, front).value, actions[|actions| - 1]);
    }
  }

  lemma NothingWithoutHandles(s: State, a: Action)
    requires Inv(s) && s.handles == map[]
    ensures Apply(s, a).None?
  {
    if a.Advance? && a.t < |s.threads| {
      assert PcOk(s.heap, s.handles, a.t, s.threads[a.t]);
    }
  }

  /** In every bounded interleaving the teardown starts once the last handle is gone, not before and
      not twice, and no step of any thread comes after it. */
  lemma {:induction false} TearsDownOnce(g: GreenNode, threads: nat, actions: seq<Action>)
    requires Exact(g) && Run(NewTree(g, threads), actions).Some? && Bounded(NewTree(g, threads), actions)
    ensures var s := Run(NewTree(g, threads), actions).value;
      && (s.torn <==> s.handles == map[])
      && Teardowns(NewTree(g, threads), actions) == (if s.torn then 1 else 0)
      && (s.torn ==> forall a :: Apply(s, a).None?)
    decreases actions
  {
    var start := NewTree(g, threads);
    NewTreeInv(g, threads);
    RunKeepsInv(start, actions);
    var s := Run(start, actions).value;
    if actions != [] {
      var front, a := actions[..|actions| - 1], actions[|actions| - 1];
      var before := Run(start, front).value;
      TearsDownOnce(g, threads, front);
      RunKeepsInv(start, front);
      OnlyTheLastDropTearsDown(before, a);
      HandlesAfter(before, a);
    }
    if s.handles == map[] {
      forall a ensures Apply(s, a).None? {
        NothingWithoutHandles(s, a);
      }
    }
  }

  lemma HandlesAfter(s: State, a: Action)
    requires Apply(s, a).Some?
    ensures Apply(s, a).value.handles == map[] <==> s.handles == map[] || (a.Drop? && |s.handles| == 1)
  {
    if a.Drop? {
      CountlessDrop(s.handles, a.h);
    }
  }

  lemma CountlessDrop(handles: map<HandleId, NodeId>, h: HandleId)
    requires h in handles
    ensures handles - {h} == map[] <==> |handles| == 1
  {
    var rest := handles - {h};
    assert handles == rest[h := handles[h]];
    if |rest| == 0 {
      assert rest == map[];
    }
  }

  // ----- slots are written once

  /** What a step leaves alone: published nodes stay, with their place and their filled slots. */
  ghost predicate SlotsStay(heap: Heap, heap': Heap) {
    forall id | Shared(heap, id) :: Shared(heap', id) && SamePlace(heap[id], heap'[id])
  }

  lemma AdvanceIsKept(s: State, t: nat, s': State)
    requires t < |s.threads| && PcOk(s.heap, s.handles, t, s.threads[t]) && s.next !in s.heap
    requires AdvanceThread(s, t) == Some(s')
    ensures Kept(s.heap, s'.heap, t)
  {
    var pc := s.threads[t];
    if pc.Writing? && s.heap[pc.n].slots[pc.i].Empty? {
      PublishKeeps(s.heap, t, pc.n, pc.i, pc.mine);
    }
  }

  lemma ApplyLeavesSlots(s: State, a: Action, s': State)
    requires Inv(s) && Apply(s, a) == Some(s')
    ensures SlotsStay(s.heap, s'.heap)
  {
    if a.Advance? {
      AdvanceLeavesSlots(s, a.t, s');
    } else {
      assert s'.heap == s.heap;
    }
  }

  lemma AdvanceLeavesSlots(s: State, t: nat, s': State)
    requires Inv(s) && t < |s.threads| && AdvanceThread(s, t) == Some(s')
    ensures SlotsStay(s.heap, s'.heap)
  {
    assert PcOk(s.heap, s.handles, t, s.threads[t]);
    assert s.next !in s.heap by { assert s.next in s.heap ==> RecOk(s.heap, s.next, s.next); }
    AdvanceIsKept(s, t, s');
    KeptSlotsStay(s.heap, s'.heap, t);
  }

  lemma KeptSlotsStay(heap: Heap, heap': Heap, t: nat)
    requires Kept(heap, heap', t)
    ensures SlotsStay(heap, heap')
  {
  }

  /** Over every interleaving: once a slot is filled every later reader gets that very element. */
  lemma {:induction false} SlotsAreWriteOnce(s: State, actions: seq<Action>)
    requires Inv(s) && Run(s, actions).Some?
    ensures SlotsStay(s.heap, Run(s, actions).value.heap)
    decreases actions
  {
    if actions != [] {
      var front := actions[..|actions| - 1];
      var mid := Run(s, front).value;
      SlotsAreWriteOnce(s, front);
      RunKeepsInv(s, front);
      var last := Run(s, actions).value;
      ApplyLeavesSlots(mid, actions[|actions| - 1], last);
      SlotsStayOn(s.heap, mid.heap, last.heap);
    }
  }

  lemma SlotsStayOn(a: Heap, b: Heap, c: Heap)
    requires SlotsStay(a, b) && SlotsStay(b, c)
    ensures SlotsStay(a, c)
  {
    forall id | Shared(a, id) ensures Shared(c, id) && SamePlace(a[id], c[id]) {
      assert SamePlace(a[id], b[id]) && SamePlace(b[id], c[id]);
    }
  }

  /** Whoever filled a slot and by whatever route: the element is the one child there, at its
      parent's start plus the lengths of the children before it, and a reader who comes by any other
      route computed the same offset, so the debug assertion on offsets holds. */
  lemma ReadersAgree(s: State, t: nat)
    requires Inv(s) && t < |s.threads| && s.threads[t].Reading?
    ensures var pc := s.threads[t];
      && pc.n in s.heap && pc.i < |s.heap[pc.n].slots| && pc.i < |Kids(s.heap[pc.n].at)|
      && (!s.heap[pc.n].slots[pc.i].Empty? ==>
            var element := SlotAt(s, s.heap[pc.n].slots[pc.i]);
            element == Some(ChildAt(s.heap[pc.n].at, pc.i)) && StartOf(element.value) == pc.offset)
  {
    var pc := s.threads[t];
    assert PcOk(s.heap, s.handles, t, pc);
    SiblingInPlace(s, pc.n, pc.i);
    assert SlotOk(s.heap, pc.n, pc.i);
  }
}

/** Serialisation: a tree as a stream of events with the nodes' custom data on the side, and back. */
module Serde {
  import opened Base
  import opened Interning
  import opened Green
  import opened BuilderSpec
  import opened Programs
  import opened Reference
  import opened Refinement
  import opened Sharing
  import opened Red
  import Preorder
  import Builder

  datatype Event = EnterNode(kind: u32, hasData: bool) | TokenEvent(kind: u32, data: bytes) | LeaveNode

  /** What deserialising can come to: a panic of the builder, an error, or a tree whose `i`-th node in
      preorder has data `marks[i]`. */
  datatype Outcome<D> = Panicked | Rejected | Restored(tree: GreenNode, values: seq<bytes>, marks: seq<Option<D>>)

  function Lookup<D>(data: map<Handle, D>, r: Handle): Option<D> {
    if r in data then Some(data[r]) else None
  }

  // ----- serialising

  function EventOf(l: Language, values: seq<bytes>, has: set<Handle>, x: Preorder.Walk): seq<Event> {
    match x
    case Enter(r) =>
      (match GreenOf(r)
       case Node(head, _) => [EnterNode(head.kind, r in has)]
       case Token(t) => [TokenEvent(t.kind, TokenText(l, values, t))])
    case Leave(r) => if IsNode(r) then [LeaveNode] else []
  }

  function EventsOf(l: Language, values: seq<bytes>, has: set<Handle>, w: seq<Preorder.Walk>): seq<Event> {
    if w == [] then [] else EventsOf(l, values, has, w[..|w| - 1]) + EventOf(l, values, has, w[|w| - 1])
  }

  /** The nodes a walk enters. */
  function NodesEntered(w: seq<Preorder.Walk>): seq<Handle> {
    if w == [] then []
    else NodesEntered(w[..|w| - 1]) + if w[|w| - 1].Enter? && IsNode(w[|w| - 1].at) then [w[|w| - 1].at] else []
  }

  /** The data of those nodes that have some. */
  function DataOf<D>(data: map<Handle, D>, nodes: seq<Handle>): seq<D> {
    if nodes == [] then []
    else DataOf(data, nodes[..|nodes| - 1]) + if nodes[|nodes| - 1] in data then [data[nodes[|nodes| - 1]]] else []
  }

  lemma DataGrows<D>(data: map<Handle, D>, w: seq<Preorder.Walk>, x: Preorder.Walk)
    ensures DataOf(data, NodesEntered(w + [x])) == DataOf(data, NodesEntered(w)) + DatumOf(data, x)
  {
    var nodes := NodesEntered(w);
    assert (w + [x])[..|w|] == w;
    if x.Enter? && IsNode(x.at) {
      assert (nodes + [x.at])[..|nodes|] == nodes;
    } else {
      assert NodesEntered(w + [x]) == nodes;
    }
  }

  /** What one event of the walk pushes to the data list. */
  function DatumOf<D>(data: map<Handle, D>, x: Preorder.Walk): seq<D> {
    if x.Enter? && IsNode(x.at) && x.at in data then [data[x.at]] else []
  }

  /** The closure that `gen_serialize!` maps over the walk. */
  method Record<D>(l: Language, values: seq<bytes>, data: map<Handle, D>, x: Preorder.Walk, list: seq<D>)
    returns (events: seq<Event>, list': seq<D>)
    ensures events == EventOf(l, values, data.Keys, x) && list' == list + DatumOf(data, x)
  {
    events, list' := [], list;
    match x {
      case Enter(r) =>
        match GreenOf(r) {
          case Node(head, _) =>
            var hasData := r in data;
            if hasData {
              list' := list + [data[r]];
            }
            events := [EnterNode(head.kind, hasData)];
          case Token(t) =>
            events := [TokenEvent(t.kind, TokenText(l, values, t))];
        }
      case Leave(r) =>
        if IsNode(r) {
          events := [LeaveNode];
        }
    }
  }

  /** `gen_serialize!` with a data list. */
  method Serialize<D>(l: Language, values: seq<bytes>, data: map<Handle, D>, me: Handle)
    returns (events: seq<Event>, list: seq<D>)
    ensures events == EventsOf(l, values, data.Keys, Preorder.Word(me, true))
    ensures list == DataOf(data, NodesEntered(Preorder.Word(me, true)))
  {
    ghost var w := Preorder.Word(me, true);
    Preorder.WalkIsTheWord(me, true);
    ghost var k := 0;
    var next := Preorder.To(Preorder.Enter(me));
    events, list := [], [];
    while next.To?
      invariant 0 <= k <= |w|
      invariant next == if k < |w| then Preorder.To(w[k]) else Preorder.Done
      invariant events == EventsOf(l, values, data.Keys, w[..k])
      invariant list == DataOf(data, NodesEntered(w[..k]))
      decreases |w| - k
    {
      OneEventMore(l, values, data, w, k);
      var more;
      more, list := Record(l, values, data, next.pos, list);
      events := events + more;
      next, k := Preorder.Step(me, next.pos, true), k + 1;
    }
    assert w[..|w|] == w;
  }

  lemma OneEventMore<D>(l: Language, values: seq<bytes>, data: map<Handle, D>, w: seq<Preorder.Walk>, k: nat)
    requires k < |w|
    ensures EventsOf(l, values, data.Keys, w[..k + 1]) ==
              EventsOf(l, values, data.Keys, w[..k]) + EventOf(l, values, data.Keys, w[k])
    ensures DataOf(data, NodesEntered(w[..k + 1])) == DataOf(data, NodesEntered(w[..k])) + DatumOf(data, w[k])
  {
    assert w[..k + 1] == w[..k] + [w[k]] && w[..k + 1][..k] == w[..k];
    DataGrows(data, w[..k], w[k]);
  }

  // ----- deserialising

  function InstrOf(e: Event): Instr {
    match e
    case EnterNode(kind, _) => Start(kind)
    case TokenEvent(kind, data) => Emit(kind, data)
    case LeaveNode => Close
  }

  function Instrs(events: seq<Event>): seq<Instr> {
    seq(|events|, i requires 0 <= i < |events| => InstrOf(events[i]))
  }

  function Flags(events: seq<Event>): seq<bool> {
    if events == [] then []
    else Flags(events[..|events| - 1]) + if events[|events| - 1].EnterNode? then [events[|events| - 1].hasData] else []
  }

  /** The re-attachment loop over `n` nodes: zipped with the flags, each true one pops the next data;
      returns what was attached and what is left. */
  function Attach<D>(n: nat, flags: seq<bool>, data: seq<D>): Option<(seq<Option<D>>, seq<D>)>
    decreases n
  {
    if n == 0 || flags == [] then Some(([], data))
    else if flags[0] && data == [] then None
    else
      match Attach(n - 1, flags[1..], if flags[0] then data[1..] else data)
      case None => None
      case Some((marks, rest)) => Some(([if flags[0] then Some(data[0]) else None] + marks, rest))
  }

  function NodesOf(r: Handle): seq<Handle> {
    NodesEntered(Preorder.Word(r, false))
  }

  function Restore<D>(l: Language, events: seq<Event>, data: seq<D>): Outcome<D> {
    match Run(l, Machine(NewState(EMPTY_CACHE), []), Instrs(events))
    case None => Panicked
    case Some(m) =>
      match Finish(m.b)
      case None => Panicked
      case Some(tree) =>
        Reattached(tree, m.b.cache.interner.values, Attach(|NodesOf(Root(tree))|, Flags(events), data))
  }

  function Reattached<D>(tree: GreenNode, values: seq<bytes>, attached: Option<(seq<Option<D>>, seq<D>)>): Outcome<D> {
    match attached
    case None => Rejected
    case Some((marks, rest)) => if rest == [] then Restored(tree, values, marks) else Rejected
  }

  // ----- the stream spells the tree

  lemma EventsOfConcat(l: Language, values: seq<bytes>, has: set<Handle>,
                                             v: seq<Preorder.Walk>, w: seq<Preorder.Walk>)
    ensures EventsOf(l, values, has, v + w) == EventsOf(l, values, has, v) + EventsOf(l, values, has, w)
  {
    JoinedMapConcat(x => EventsOf(l, values, has, x), e => EventOf(l, values, has, e), v, w);
  }

  lemma EventsOfOne(l: Language, values: seq<bytes>, has: set<Handle>, x: Preorder.Walk)
    ensures EventsOf(l, values, has, [x]) == EventOf(l, values, has, x)
  {
    assert [x][..0] == [];
    assert EventsOf(l, values, has, []) == [];
  }

  lemma NodesEnteredConcat(v: seq<Preorder.Walk>, w: seq<Preorder.Walk>)
    ensures NodesEntered(v + w) == NodesEntered(v) + NodesEntered(w)
  {
    JoinedMapConcat(x => NodesEntered(x), (s: Preorder.Walk) => if s.Enter? && IsNode(s.at) then [s.at] else [], v, w);
  }

  lemma NodesEnteredOne(x: Preorder.Walk)
    ensures NodesEntered([x]) == if x.Enter? && IsNode(x.at) then [x.at] else []
  {
    assert [x][..0] == [];
  }

  lemma InstrsConcat(a: seq<Event>, b: seq<Event>)
    ensures Instrs(a + b) == Instrs(a) + Instrs(b)
  {
  }

  lemma EventsOfWord(l: Language, values: seq<bytes>, has: set<Handle>, r: Handle)
    ensures EventsOf(l, values, has, Preorder.Word(r, true)) ==
              EventOf(l, values, has, Preorder.Enter(r)) + EventsOf(l, values, has, Preorder.Forest(r, 0, true))
              + EventOf(l, values, has, Preorder.Leave(r))
  {
    var enter, leave, forest := Preorder.Enter(r), Preorder.Leave(r), Preorder.Forest(r, 0, true);
    EventsOfConcat(l, values, has, [enter] + forest, [leave]);
    EventsOfConcat(l, values, has, [enter], forest);
    EventsOfOne(l, values, has, enter);
    EventsOfOne(l, values, has, leave);
  }

  /** The events of an element are the calls that build the plain tree it stands for. */
  lemma {:induction false} EventsAreCalls(l: Language, values: seq<bytes>, has: set<Handle>, r: Handle)
    ensures Instrs(EventsOf(l, values, has, Preorder.Word(r, true))) == Calls(Abs(l, values, GreenOf(r)))
    decreases GreenOf(r), 1, 0
  {
    var first, last := EventOf(l, values, has, Preorder.Enter(r)), EventOf(l, values, has, Preorder.Leave(r));
    var all := EventsOf(l, values, has, Preorder.Forest(r, 0, true));
    assert Instrs(EventsOf(l, values, has, Preorder.Word(r, true))) == Instrs(first) + Instrs(all) + Instrs(last) by {
      EventsOfWord(l, values, has, r);
      InstrsConcat(first + all, last);
      InstrsConcat(first, all);
    }
    if IsNode(r) {
      assert Instrs(all) == CallsAll(AbsAll(l, values, Kids(r))) by {
        ForestIsCalls(l, values, has, r, 0);
        assert Kids(r)[0..] == Kids(r);
      }
    }
  }

  lemma {:induction false} ForestIsCalls(l: Language, values: seq<bytes>, has: set<Handle>, r: Handle, i: nat)
    requires i <= |Kids(r)|
    ensures Instrs(EventsOf(l, values, has, Preorder.Forest(r, i, true))) == CallsAll(AbsAll(l, values, Kids(r)[i..]))
    decreases GreenOf(r), 0, |Kids(r)| - i
  {
    var kids := Kids(r);
    var prog := Instrs(EventsOf(l, values, has, Preorder.Forest(r, i, true)));
    if i == |kids| {
      assert kids[i..] == [] && prog == [];
    } else {
      var c := ChildAt(r, i);
      assert GreenOf(c) == kids[i];
      var first := Instrs(EventsOf(l, values, has, Preorder.Word(c, true)));
      var more := Instrs(EventsOf(l, values, has, Preorder.Forest(r, i + 1, true)));
      assert prog == first + more by { ForestEvents(l, values, has, r, i); }
      assert first == Calls(Abs(l, values, kids[i])) by { EventsAreCalls(l, values, has, c); }
      assert more == CallsAll(AbsAll(l, values, kids[i + 1..])) by { ForestIsCalls(l, values, has, r, i + 1); }
      ForestCalls(l, values, kids, i);
    }
  }

  lemma ForestEvents(l: Language, values: seq<bytes>, has: set<Handle>, r: Handle, i: nat)
    requires i < |Kids(r)|
    ensures Instrs(EventsOf(l, values, has, Preorder.Forest(r, i, true))) ==
              Instrs(EventsOf(l, values, has, Preorder.Word(ChildAt(r, i), true)))
              + Instrs(EventsOf(l, values, has, Preorder.Forest(r, i + 1, true)))
  {
    var w, rest := Preorder.Word(ChildAt(r, i), true), Preorder.Forest(r, i + 1, true);
    EventsOfConcat(l, values, has, w, rest);
    InstrsConcat(EventsOf(l, values, has, w), EventsOf(l, values, has, rest));
  }

  lemma ForestCalls(l: Language, values: seq<bytes>, cs: seq<Element>, i: nat)
    requires i < |cs|
    ensures CallsAll(AbsAll(l, values, cs[i..])) == Calls(Abs(l, values, cs[i])) + CallsAll(AbsAll(l, values, cs[i + 1..]))
  {
    var t, ts := Abs(l, values, cs[i]), AbsAll(l, values, cs[i + 1..]);
    assert AbsAll(l, values, cs[i..]) == [t] + ts;
    CallsAllConcat([t], ts);
    CallsAllOne(t);
  }

  function Having(has: set<Handle>, nodes: seq<Handle>): seq<bool> {
    if nodes == [] then [] else Having(has, nodes[..|nodes| - 1]) + [nodes[|nodes| - 1] in has]
  }

  lemma HavingGrows(has: set<Handle>, nodes: seq<Handle>, r: Handle)
    ensures Having(has, nodes + [r]) == Having(has, nodes) + [r in has]
  {
    assert (nodes + [r])[..|nodes|] == nodes;
  }

  /** The flags say which of the nodes entered have data. */
  lemma {:induction false} FlagsMatchNodes(l: Language, values: seq<bytes>, has: set<Handle>, w: seq<Preorder.Walk>)
    ensures Flags(EventsOf(l, values, has, w)) == Having(has, NodesEntered(w))
    decreases w
  {
    if w != [] {
      var front, x := w[..|w| - 1], w[|w| - 1];
      FlagsMatchNodes(l, values, has, front);
      var events, more := EventsOf(l, values, has, front), EventOf(l, values, has, x);
      var nodes := NodesEntered(front);
      if more == [] {
        assert events + more == events && NodesEntered(w) == nodes;
      } else {
        FlagsGrow(events, more[0]);
        if x.Enter? && IsNode(x.at) {
          HavingGrows(has, nodes, x.at);
        } else {
          assert NodesEntered(w) == nodes;
        }
      }
    }
  }

  lemma FlagsGrow(events: seq<Event>, e: Event)
    ensures Flags(events + [e]) == Flags(events) + if e.EnterNode? then [e.hasData] else []
  {
    assert (events + [e])[..|events|] == events;
  }

  // ----- counting nodes

  function Starts(prog: seq<Instr>): nat {
    if prog == [] then 0 else Starts(prog[..|prog| - 1]) + if prog[|prog| - 1].Start? then 1 else 0
  }

  lemma StartsConcat(a: seq<Instr>, b: seq<Instr>)
    ensures Starts(a + b) == Starts(a) + Starts(b)
  {
    SummedMapConcat(x => Starts(x), (i: Instr) => if i.Start? then 1 else 0, a, b);
  }

  lemma {:induction false} FlagsPerStart(events: seq<Event>)
    ensures |Flags(events)| == Starts(Instrs(events))
    decreases events
  {
    if events != [] {
      FlagsPerStart(events[..|events| - 1]);
      assert Instrs(events)[..|events| - 1] == Instrs(events[..|events| - 1]);
    }
  }

  lemma {:induction false} CanonStarts(l: Language, t: Tree)
    ensures Starts(Calls(Canon(l, t))) == Starts(Calls(t))
    decreases t, 0
  {
    match t
    case Branch(kind, ts) =>
      CanonStartsAll(l, ts);
      StartsAround(kind, ts);
      StartsAround(kind, CanonAll(l, ts));
    case Leaf(kind, text) =>
      assert [Emit(kind, text)][..0] == [] && [Emit(kind, TextFor(l, kind, text))][..0] == [];
  }

  lemma StartsAround(kind: u32, ts: seq<Tree>)
    ensures Starts(Calls(Branch(kind, ts))) == 1 + Starts(CallsAll(ts))
  {
    StartsConcat([Start(kind)] + CallsAll(ts), [Close]);
    StartsConcat([Start(kind)], CallsAll(ts));
    assert [Start(kind)][..0] == [] && [Close][..0] == [];
  }

  lemma {:induction false} CanonStartsAll(l: Language, ts: seq<Tree>)
    ensures Starts(CallsAll(CanonAll(l, ts))) == Starts(CallsAll(ts))
    decreases ts, 1
  {
    if ts != [] {
      var front, last := ts[..|ts| - 1], ts[|ts| - 1];
      assert CanonAll(l, ts)[..|ts| - 1] == CanonAll(l, front);
      CanonStartsAll(l, front);
      CanonStarts(l, last);
      StartsConcat(CallsAll(front), Calls(last));
      StartsConcat(CallsAll(CanonAll(l, front)), Calls(Canon(l, last)));
    }
  }

  lemma {:induction false} OnlyNodesEntered(w: seq<Preorder.Walk>)
    ensures NodesEntered(Preorder.OnlyNodes(w)) == NodesEntered(w)
    decreases w
  {
    if w != [] {
      var front, x := w[..|w| - 1], w[|w| - 1];
      OnlyNodesEntered(front);
      if IsNode(x.at) {
        NodesEnteredConcat(Preorder.OnlyNodes(front), [x]);
        NodesEnteredOne(x);
      } else {
        assert Preorder.OnlyNodes(w) == Preorder.OnlyNodes(front);
      }
    }
  }

  lemma {:induction false} HavingLength(has: set<Handle>, nodes: seq<Handle>)
    ensures |Having(has, nodes)| == |nodes|
  {
    if nodes != [] {
      HavingLength(has, nodes[..|nodes| - 1]);
    }
  }

  /** A tree has as many nodes as the calls that build it start. */
  lemma NodesPerStart(l: Language, values: seq<bytes>, r: Handle)
    requires IsNode(r)
    ensures NodesOf(r) == NodesEntered(Preorder.Word(r, true))
    ensures |NodesOf(r)| == Starts(Calls(Abs(l, values, GreenOf(r))))
  {
    var w := Preorder.Word(r, true);
    Preorder.NodeWordIsRestriction(r);
    OnlyNodesEntered(w);
    FlagsMatchNodes(l, values, {}, w);
    HavingLength({}, NodesEntered(w));
    FlagsPerStart(EventsOf(l, values, {}, w));
    EventsAreCalls(l, values, {}, r);
  }

  // ----- re-attaching data

  function Trues(flags: seq<bool>): nat {
    if flags == [] then 0 else (if flags[0] then 1 else 0) + Trues(flags[1..])
  }

  /** With as many flags as nodes, attaching uses up the data exactly when there are as many true
      flags as data. */
  lemma {:induction false} AttachesExactly<D>(n: nat, flags: seq<bool>, data: seq<D>)
    requires n == |flags|
    ensures Attach(n, flags, data).Some? <==> Trues(flags) <= |data|
    ensures Attach(n, flags, data).Some? ==> |Attach(n, flags, data).value.1| == |data| - Trues(flags)
    decreases n
  {
    if n > 0 && !(flags[0] && data == []) {
      AttachesExactly(n - 1, flags[1..], if flags[0] then data[1..] else data);
    }
  }

  function Marks<D>(data: map<Handle, D>, nodes: seq<Handle>): seq<Option<D>> {
    if nodes == [] then [] else [Lookup(data, nodes[0])] + Marks(data, nodes[1..])
  }

  lemma {:induction false} FrontFirst<D>(data: map<Handle, D>, r: Handle, nodes: seq<Handle>)
    ensures Having(data.Keys, [r] + nodes) == [r in data] + Having(data.Keys, nodes)
    ensures DataOf(data, [r] + nodes) == (if r in data then [data[r]] else []) + DataOf(data, nodes)
    decreases nodes
  {
    var all := [r] + nodes;
    if nodes == [] {
      assert all[..0] == [];
    } else {
      var front := nodes[..|nodes| - 1];
      assert all[..|all| - 1] == [r] + front && all[|all| - 1] == nodes[|nodes| - 1];
      FrontFirst(data, r, front);
    }
  }

  /** What serialising took from the nodes goes back to the same places, with nothing left over. */
  lemma {:induction false} AttachPutsBack<D>(data: map<Handle, D>, nodes: seq<Handle>)
    ensures Attach(|nodes|, Having(data.Keys, nodes), DataOf(data, nodes)) == Some((Marks(data, nodes), []))
    decreases nodes
  {
    if nodes != [] {
      var r, rest := nodes[0], nodes[1..];
      assert nodes == [r] + rest;
      FrontFirst(data, r, rest);
      var flags, list := Having(data.Keys, nodes), DataOf(data, nodes);
      assert flags[1..] == Having(data.Keys, rest);
      assert (if r in data then list[1..] else list) == DataOf(data, rest);
      AttachPutsBack(data, rest);
    }
  }

  // ----- round trip

  lemma {:induction false} CallsAreValid(l: Language, values: seq<bytes>, e: Element)
    requires Known(l, values, e) && forall v | v in values :: l.valid(v)
    ensures forall i | i in Calls(Abs(l, values, e)) :: Payload(l, i)
    decreases e, 0
  {
    match e
    case Node(_, cs) => CallsAllAreValid(l, values, cs);
    case Token(t) =>
  }

  lemma {:induction false} CallsAllAreValid(l: Language, values: seq<bytes>, cs: seq<Element>)
    requires AllKnown(l, values, cs) && forall v | v in values :: l.valid(v)
    ensures forall i | i in CallsAll(AbsAll(l, values, cs)) :: Payload(l, i)
    decreases cs, 1
  {
    if cs != [] {
      var front, last := cs[..|cs| - 1], cs[|cs| - 1];
      assert AbsAll(l, values, cs)[..|cs| - 1] == AbsAll(l, values, front);
      CallsAllAreValid(l, values, front);
      CallsAreValid(l, values, last);
    }
  }

  lemma {:induction false} AbsIsCanonical(l: Language, values: seq<bytes>, e: Element)
    requires Known(l, values, e)
    ensures Canon(l, Abs(l, values, e)) == Abs(l, values, e)
    decreases e, 0
  {
    if e.Node? {
      forall i | 0 <= i < |e.children| ensures Canon(l, Abs(l, values, e.children[i])) == Abs(l, values, e.children[i]) {
        AbsIsCanonical(l, values, e.children[i]);
      }
      assert CanonAll(l, AbsAll(l, values, e.children)) == AbsAll(l, values, e.children);
    }
  }

  /** The nodes a deserialiser's builder asks its cache for. */
  function Asked(l: Language, events: seq<Event>): set<GreenNode> {
    Requested(l, Machine(NewState(EMPTY_CACHE), []), Instrs(events))
  }

  /** A stream that spells a whole tree, of valid payloads and without collisions, is built. */
  lemma StreamBuilds<D>(l: Language, events: seq<Event>, data: seq<D>, t: Tree)
    returns (tree: GreenNode, values: seq<bytes>)
    requires t.Branch? && Instrs(events) == Calls(t)
    requires (forall i | i in Calls(t) :: Payload(l, i)) && |events| <= U32_MAX && HeadsDistinct(Asked(l, events))
    ensures Good(l, values, tree) && Abs(l, values, tree) == Canon(l, t)
    ensures |NodesOf(Root(tree))| == |Flags(events)|
    ensures Restore(l, events, data) == Reattached(tree, values, Attach(|Flags(events)|, Flags(events), data))
  {
    assert |Calls(t)| == |events|;
    CallsFinishTheTree(l, EMPTY_CACHE, t, Asked(l, events));
    var s := Run(l, Machine(NewState(EMPTY_CACHE), []), Calls(t)).value.b;
    tree, values := Finish(s).value, s.cache.interner.values;
    assert |NodesOf(Root(tree))| == Starts(Calls(Canon(l, t))) by { NodesPerStart(l, values, Root(tree)); }
    CanonStarts(l, t);
    FlagsPerStart(events);
  }

  /** On a stream that spells a whole tree, deserialising never panics, and succeeds exactly when as
      many nodes are flagged as there are data. */
  lemma SucceedsIffCountsAgree<D>(l: Language, events: seq<Event>, data: seq<D>, t: Tree)
    requires t.Branch? && Instrs(events) == Calls(t)
    requires (forall i | i in Calls(t) :: Payload(l, i)) && |events| <= U32_MAX && HeadsDistinct(Asked(l, events))
    ensures !Restore(l, events, data).Panicked?
    ensures Restore(l, events, data).Restored? <==> Trues(Flags(events)) == |data|
  {
    var tree, values := StreamBuilds(l, events, data, t);
    AttachesExactly(|Flags(events)|, Flags(events), data);
  }

  /** Serialising and deserialising gives back the tree, kinds and token bytes included, and every
      node's custom data at its node. `r` may be an inner node; the result is a root. */
  lemma RoundTrip<D>(l: Language, values: seq<bytes>, data: map<Handle, D>, r: Handle)
    requires IsNode(r) && Known(l, values, GreenOf(r)) && forall v | v in values :: l.valid(v)
    requires var events := EventsOf(l, values, data.Keys, Preorder.Word(r, true));
      HeadsDistinct(Asked(l, events)) && |events| <= U32_MAX
    ensures var w := Preorder.Word(r, true);
            var restored := Restore(l, EventsOf(l, values, data.Keys, w), DataOf(data, NodesEntered(w)));
      && restored.Restored?
      && Good(l, restored.values, restored.tree)
      && Abs(l, restored.values, restored.tree) == Abs(l, values, GreenOf(r))
      && restored.marks == Marks(data, NodesOf(r)) && |NodesOf(Root(restored.tree))| == |NodesOf(r)|
  {
    var w := Preorder.Word(r, true);
    var events, t := EventsOf(l, values, data.Keys, w), Abs(l, values, GreenOf(r));
    EventsAreCalls(l, values, data.Keys, r);
    CallsAreValid(l, values, GreenOf(r));
    AbsIsCanonical(l, values, GreenOf(r));
    var tree, values' := StreamBuilds(l, events, DataOf(data, NodesEntered(w)), t);
    NodesPerStart(l, values, r);
    FlagsMatchNodes(l, values, data.Keys, w);
    HavingLength(data.Keys, NodesEntered(w));
    AttachPutsBack(data, NodesEntered(w));
  }

  // ----- the ranges of the restored tree

  lemma {:induction false} GoodLength(l: Language, values: seq<bytes>, e: Element)
    requires Good(l, values, e)
    ensures TextLen(e) == Wrap(|Text(Abs(l, values, e))|)
    decreases e
  {
    if e.Node? {
      GoodChildren(l, values, e);
      forall c | c in e.children ensures TextLen(c) == Wrap(|Text(Abs(l, values, c))|) {
        GoodLength(l, values, c);
      }
      SumLenMatches(e.children, AbsAll(l, values, e.children));
    }
  }

  /** The handle reached below `r'` by the steps that lead from `r` to `x`. */
  function Mirror(r: Handle, x: Handle, r': Handle): Handle
    decreases x
  {
    if x == r || x.Root? then r'
    else
      var p := Mirror(r, x.parent, r');
      if x.index <= |Kids(p)| then ChildAt(p, x.index) else Child(p, x.index, 0)
  }

  lemma PrefixLenAlike(l: Language, values: seq<bytes>, cs: seq<Element>, values': seq<bytes>, cs': seq<Element>, n: nat)
    requires AllGood(l, values, cs) && AllGood(l, values', cs') && AbsAll(l, values, cs) == AbsAll(l, values', cs')
    requires n <= |cs|
    ensures |cs| == |cs'| && PrefixLen(cs, n) == PrefixLen(cs', n)
  {
    assert |cs| == |AbsAll(l, values, cs)| == |AbsAll(l, values', cs')| == |cs'|;
    if n > 0 {
      PrefixLenAlike(l, values, cs, values', cs', n - 1);
      assert AbsAll(l, values, cs)[n - 1] == AbsAll(l, values', cs')[n - 1];
      GoodLength(l, values, cs[n - 1]);
      GoodLength(l, values', cs'[n - 1]);
    }
  }

  /** Two trees that stand for the same plain tree have the same element at every place, and its range
      in one is its range in the other shifted by the difference between the two roots' starts: in a
      restored tree, whose root starts at 0, all ranges are rebased to 0. */
  lemma {:induction false} RangesAreRebased(l: Language, values: seq<bytes>, r: Handle,
                                            values': seq<bytes>, r': Handle, x: Handle)
    requires Good(l, values, GreenOf(r)) && Good(l, values', GreenOf(r'))
    requires Abs(l, values, GreenOf(r)) == Abs(l, values', GreenOf(r'))
    requires Valid(x) && Within(r, x)
    ensures var x' := Mirror(r, x, r');
      && Good(l, values, GreenOf(x)) && Good(l, values', GreenOf(x'))
      && Abs(l, values', GreenOf(x')) == Abs(l, values, GreenOf(x))
      && StartOf(x') - StartOf(r') == StartOf(x) - StartOf(r)
      && EndOf(x') - StartOf(r') == EndOf(x) - StartOf(r)
    decreases x
  {
    if x != r {
      var p, p' := x.parent, Mirror(r, x.parent, r');
      RangesAreRebased(l, values, r, values', r', p);
      GoodChildren(l, values, GreenOf(p));
      GoodChildren(l, values', GreenOf(p'));
      PrefixLenAlike(l, values, Kids(p), values', Kids(p'), x.index);
      assert AbsAll(l, values, Kids(p))[x.index] == AbsAll(l, values', Kids(p'))[x.index];
    }
    GoodLength(l, values, GreenOf(x));
    GoodLength(l, values', GreenOf(Mirror(r, x, r')));
  }

  // ----- streams that are not balanced

  /** `finish` does not look at open nodes: a stream that never leaves its first node is accepted, and
      the data flagged on that node ends up on the other one. */
  lemma UnbalancedIsAccepted<D>(l: Language, outer: u32, inner: u32, d: D)
    ensures var r := Restore(l, [EnterNode(outer, true), EnterNode(inner, false), LeaveNode], [d]);
      r.Restored? && KindOf(r.tree) == inner && r.tree.children == [] && r.marks == [Some(d)]
  {
    var events := [EnterNode(outer, true), EnterNode(inner, false), LeaveNode];
    var start := Machine(NewState(EMPTY_CACHE), []);
    var one := start.(b := StartNode(start.b, outer));
    var two := one.(b := StartNode(one.b, inner));
    RunOne(l, start, Start(outer));
    RunThen(l, start, [Start(outer)], one, Start(inner));
    RunThen(l, start, [Start(outer)] + [Start(inner)], two, Close);
    assert Instrs(events) == [Start(outer)] + [Start(inner)] + [Close];
    var tree := MakeNode(l.hasher, inner, []);
    var s := FinishNode(l, two.b).value;
    assert s.children == [tree];
    EmptyNodeAlone(tree);
    FlagsGrow([], events[0]);
    FlagsGrow([events[0]], events[1]);
    FlagsGrow([events[0]] + [events[1]], events[2]);
    assert events == [events[0]] + [events[1]] + [events[2]] && [] + [events[0]] == [events[0]];
    assert Flags(events) == [true, false];
    assert Attach<D>(0, [false], []) == Some(([], []));
    assert [true, false][1..] == [false] && [d][1..] == [];
    assert [Some(d)] + [] == [Some(d)];
    assert Attach(1, [true, false], [d]) == Some(([Some(d)], []));
  }

  lemma EmptyNodeAlone(tree: GreenNode)
    requires tree.children == []
    ensures |NodesOf(Root(tree))| == 1
  {
    var r := Root(tree);
    assert Kids(r) == [] && Preorder.Forest(r, 0, false) == [];
    assert Preorder.Word(r, false) == [Preorder.Enter(r)] + [Preorder.Leave(r)];
    NodesEnteredConcat([Preorder.Enter(r)], [Preorder.Leave(r)]);
    NodesEnteredOne(Preorder.Enter(r));
    NodesEnteredOne(Preorder.Leave(r));
  }

  // ----- the deserialiser itself

  lemma {:induction false} OnlyNodesAreNodes(w: seq<Preorder.Walk>)
    ensures forall x | x in Preorder.OnlyNodes(w) :: IsNode(x.at)
    decreases w
  {
    if w != [] {
      OnlyNodesAreNodes(w[..|w| - 1]);
    }
  }

  lemma NodeWordHasNodes(r: Handle, k: nat)
    requires IsNode(r) && k < |Preorder.Word(r, false)|
    ensures var w := Preorder.Word(r, false);
      && IsNode(w[k].at) && |NodesEntered(w[..k + 1])| <= |NodesEntered(w)|
      && |NodesEntered(w[..k + 1])| == |NodesEntered(w[..k])| + if w[k].Enter? then 1 else 0
  {
    var w := Preorder.Word(r, false);
    Preorder.NodeWordIsRestriction(r);
    OnlyNodesAreNodes(Preorder.Word(r, true));
    assert w[k] in w;
    assert w[..k + 1] == w[..k] + [w[k]] && w == w[..k + 1] + w[k + 1..];
    NodesEnteredConcat(w[..k], [w[k]]);
    NodesEnteredOne(w[k]);
    NodesEnteredConcat(w[..k + 1], w[k + 1..]);
  }

  /** `marks` is attached already, and the rest is still to do. */
  ghost predicate HalfAttached<D>(n: nat, flags: seq<bool>, data: seq<D>, marks: seq<Option<D>>, left: seq<D>)
    requires |marks| <= n && |marks| <= |flags|
  {
    Attach(n, flags, data) ==
      match Attach(n - |marks|, flags[|marks|..], left)
      case None => None
      case Some((more, rest)) => Some((marks + more, rest))
  }

  lemma AttachOneMore<D>(n: nat, flags: seq<bool>, data: seq<D>, marks: seq<Option<D>>, left: seq<D>)
    requires |marks| < n && |marks| < |flags| && HalfAttached(n, flags, data, marks, left)
    ensures flags[|marks|] && left == [] ==> Attach(n, flags, data).None?
    ensures flags[|marks|] && left != [] ==> HalfAttached(n, flags, data, marks + [Some(left[0])], left[1..])
    ensures !flags[|marks|] ==> HalfAttached(n, flags, data, marks + [None], left)
  {
    var rest := flags[|marks|..];
    assert rest[1..] == flags[|marks| + 1..];
    if !(rest[0] && left == []) {
      var mark := if rest[0] then Some(left[0]) else None;
      var left' := if rest[0] then left[1..] else left;
      match Attach(n - |marks| - 1, rest[1..], left')
      case None =>
      case Some((more, end)) => Associate(marks, [mark], more);
    }
  }

  /** Zips the tree's nodes with the flags and pops one datum for each true one. */
  method Reattach<D>(tree: GreenNode, flags: seq<bool>, data: seq<D>) returns (r: Option<(seq<Option<D>>, seq<D>)>)
    ensures r == Attach(|NodesOf(Root(tree))|, flags, data)
  {
    var me := Root(tree);
    ghost var w, n := Preorder.Word(me, false), |NodesOf(me)|;
    Preorder.WalkIsTheWord(me, false);
    ghost var k := 0;
    var next := Preorder.To(Preorder.Enter(me));
    var marks: seq<Option<D>>, left := [], data;
    HalfAttachedAtFirst(n, flags, data);
    while next.To?
      invariant 0 <= k <= |w|
      invariant next == if k < |w| then Preorder.To(w[k]) else Preorder.Done
      invariant |marks| == |NodesEntered(w[..k])| <= n && |marks| <= |flags|
      invariant HalfAttached(n, flags, data, marks, left)
      decreases |w| - k
    {
      NodeWordHasNodes(me, k);
      if next.pos.Enter? {
        if |marks| == |flags| {
          assert marks + [] == marks;
          return Some((marks, left));
        }
        AttachOneMore(n, flags, data, marks, left);
        if flags[|marks|] {
          if left == [] {
            return None;
          }
          marks, left := marks + [Some(left[0])], left[1..];
        } else {
          marks := marks + [None];
        }
      }
      next, k := Preorder.Step(me, next.pos, false), k + 1;
    }
    assert w[..|w|] == w && marks + [] == marks;
    r := Some((marks, left));
  }

  lemma HalfAttachedAtFirst<D>(n: nat, flags: seq<bool>, data: seq<D>)
    ensures HalfAttached(n, flags, data, [], data)
  {
    assert flags[0..] == flags;
    match Attach(n, flags, data)
    case None =>
    case Some((marks, rest)) => assert [] + marks == marks;
  }

  /** One event drives the builder one call further; `false` is the builder's panic. */
  method Feed(builder: Builder.GreenNodeBuilder, e: Event) returns (ok: bool)
    requires builder.Valid()
    modifies builder.Repr()
    ensures builder.Valid()
    ensures Exec(builder.cache.lang, Machine(old(builder.View()), []), InstrOf(e)) ==
              if ok then Some(Machine(builder.View(), [])) else None
  {
    match e {
      case EnterNode(kind, _) =>
        builder.StartNode(kind);
        ok := true;
      case TokenEvent(kind, data) =>
        ok := builder.Token(kind, data);
      case LeaveNode =>
        ok := builder.FinishNode();
    }
  }

  lemma RunOnward(l: Language, events: seq<Event>, k: nat, m: Machine)
    requires k < |events| && Run(l, Machine(NewState(EMPTY_CACHE), []), Instrs(events[..k])) == Some(m)
    ensures Run(l, Machine(NewState(EMPTY_CACHE), []), Instrs(events[..k + 1])) == Exec(l, m, InstrOf(events[k]))
    ensures Exec(l, m, InstrOf(events[k])).None? ==>
              Run(l, Machine(NewState(EMPTY_CACHE), []), Instrs(events)).None?
    ensures Flags(events[..k + 1]) == Flags(events[..k]) + if events[k].EnterNode? then [events[k].hasData] else []
  {
    var start := Machine(NewState(EMPTY_CACHE), []);
    assert Instrs(events[..k + 1]) == Instrs(events[..k]) + [InstrOf(events[k])];
    RunThen(l, start, Instrs(events[..k]), m, InstrOf(events[k]));
    assert Instrs(events) == Instrs(events[..k + 1]) + Instrs(events[k + 1..]);
    RunConcat(l, start, Instrs(events[..k + 1]), Instrs(events[k + 1..]));
    assert events[..k + 1] == events[..k] + [events[k]];
    FlagsGrow(events[..k], events[k]);
  }

  /** `visit_seq`: the events drive a fresh builder, and the flags are queued up. `None` is a panic. */
  method VisitSeq(l: Language, events: seq<Event>) returns (r: Option<(GreenNode, seq<bytes>, seq<bool>)>)
    ensures r == match Run(l, Machine(NewState(EMPTY_CACHE), []), Instrs(events))
      case None => None
      case Some(m) =>
        if Finish(m.b).Some? then Some((Finish(m.b).value, m.b.cache.interner.values, Flags(events))) else None
  {
    var cache := new Builder.NodeCache(l);
    var builder := new Builder.GreenNodeBuilder.WithCache(cache);
    var dataIndices: seq<bool> := [];
    for k := 0 to |events|
      invariant builder.Valid() && fresh(builder.Repr()) && builder.cache.lang == l
      invariant Run(l, Machine(NewState(EMPTY_CACHE), []), Instrs(events[..k])) == Some(Machine(builder.View(), []))
      invariant dataIndices == Flags(events[..k])
    {
      RunOnward(l, events, k, Machine(builder.View(), []));
      var ok := Feed(builder, events[k]);
      if !ok {
        return None;
      }
      if events[k].EnterNode? {
        dataIndices := dataIndices + [events[k].hasData];
      }
    }
    assert events[..|events|] == events;
    var tree := builder.Finish();
    match tree {
      case None => return None;
      case Some(root) => return Some((root, builder.cache.interner.values, dataIndices));
    }
  }

  /** `deserialize`. */
  method Deserialize<D>(l: Language, events: seq<Event>, data: seq<D>) returns (r: Outcome<D>)
    ensures r == Restore(l, events, data)
  {
    var visited := VisitSeq(l, events);
    match visited {
      case None => return Panicked;
      case Some((tree, values, dataIndices)) =>
        var attached := Reattach(tree, dataIndices, data);
        match attached {
          case None => return Rejected;
          case Some((marks, rest)) =>
            return if rest != [] then Rejected else Restored(tree, values, marks);
        }
    }
  }
}

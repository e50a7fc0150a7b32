/** Which event streams the deserialiser accepts, and what it does with them: every stream, balanced or
    not. */
module Streams {
  import opened Base
  import opened Interning
  import opened Green
  import opened BuilderSpec
  import opened Programs
  import opened Reference
  import opened Refinement
  import opened Sharing
  import opened Red
  import opened Serde

  // ----- what a stack of open nodes and children spells

  /** Enough of a state to tell which calls made it. */
  function Spell(parents: seq<Parent>, children: seq<Tree>): seq<Instr> {
    if parents == [] then CallsAll(children)
    else
      var p := parents[|parents| - 1];
      if p.firstChild > |children| then []
      else Spell(parents[..|parents| - 1], children[..p.firstChild]) + [Start(p.kind)] + CallsAll(children[p.firstChild..])
  }

  ghost predicate Nested(parents: seq<Parent>, count: nat) {
    parents != [] ==>
      var p := parents[|parents| - 1];
      p.firstChild <= count && Nested(parents[..|parents| - 1], p.firstChild)
  }

  lemma SpellPush(parents: seq<Parent>, children: seq<Tree>, t: Tree)
    requires Nested(parents, |children|)
    ensures Nested(parents, |children| + 1)
    ensures Spell(parents, children + [t]) == Spell(parents, children) + Calls(t)
  {
    CallsAllOne(t);
    if parents == [] {
      CallsAllConcat(children, [t]);
    } else {
      var n := parents[|parents| - 1].firstChild;
      assert (children + [t])[..n] == children[..n] && (children + [t])[n..] == children[n..] + [t];
      CallsAllConcat(children[n..], [t]);
      var a := Spell(parents[..|parents| - 1], children[..n]) + [Start(parents[|parents| - 1].kind)];
      Associate(a, CallsAll(children[n..]), Calls(t));
    }
  }

  lemma SpellOpen(parents: seq<Parent>, children: seq<Tree>, kind: u32)
    requires Nested(parents, |children|)
    ensures Nested(parents + [Parent(kind, |children|)], |children|)
    ensures Spell(parents + [Parent(kind, |children|)], children) == Spell(parents, children) + [Start(kind)]
  {
    var more := parents + [Parent(kind, |children|)];
    assert more[..|more| - 1] == parents;
    assert children[..|children|] == children && children[|children|..] == [];
  }

  lemma SpellClose(parents: seq<Parent>, children: seq<Tree>)
    requires parents != [] && Nested(parents, |children|)
    ensures var n := |parents| - 1;
            var p := parents[n];
            var closed := children[..p.firstChild] + [Branch(p.kind, children[p.firstChild..])];
      && Nested(parents[..n], |closed|) && Spell(parents[..n], closed) == Spell(parents, children) + [Close]
  {
    var n := |parents| - 1;
    var p := parents[n];
    var front, ts := children[..p.firstChild], children[p.firstChild..];
    SpellPush(parents[..n], front, Branch(p.kind, ts));
    var a := Spell(parents[..n], front);
    assert a + ([Start(p.kind)] + CallsAll(ts) + [Close]) == (a + [Start(p.kind)] + CallsAll(ts)) + [Close];
  }

  // ----- the texts as they were pushed

  predicate EventCall(i: Instr) {
    i.Emit? || i.Start? || i.Close?
  }

  /** The reference builder's step, with every leaf keeping the bytes pushed. */
  function RawExec(r: RefState, i: Instr): Option<RefState> {
    match i
    case Emit(kind, data) => Some(r.(children := r.children + [Leaf(kind, data)]))
    case Start(kind) => Some(r.(parents := r.parents + [Parent(kind, |r.children|)]))
    case Close =>
      if r.parents == [] then None else
      var p := r.parents[|r.parents| - 1];
      if p.firstChild > |r.children| then None else
      Some(r.(parents := r.parents[..|r.parents| - 1],
              children := r.children[..p.firstChild] + [Branch(p.kind, r.children[p.firstChild..])]))
    case _ => None
  }

  function CanonState(l: Language, r: RefState): RefState {
    r.(children := CanonAll(l, r.children))
  }

  lemma RawExecMatches(l: Language, r: RefState, i: Instr)
    requires EventCall(i)
    ensures RefExec(l, CanonState(l, r), i) ==
              match RawExec(r, i) case Some(r') => Some(CanonState(l, r')) case None => None
  {
    match i
    case Emit(kind, data) =>
      assert CanonAll(l, r.children + [Leaf(kind, data)]) == CanonAll(l, r.children) + [Leaf(kind, TextFor(l, kind, data))];
    case Start(_) =>
    case Close =>
      if r.parents != [] && r.parents[|r.parents| - 1].firstChild <= |r.children| {
        var p := r.parents[|r.parents| - 1];
        CanonWrapped(l, r.children, p.firstChild, p.kind);
      }
  }

  lemma CanonWrapped(l: Language, ts: seq<Tree>, n: nat, kind: u32)
    requires n <= |ts|
    ensures CanonAll(l, ts)[..n] + [Branch(kind, CanonAll(l, ts)[n..])] == CanonAll(l, ts[..n] + [Branch(kind, ts[n..])])
  {
    assert CanonAll(l, ts)[n..] == CanonAll(l, ts[n..]);
    assert CanonAll(l, ts)[..n] == CanonAll(l, ts[..n]);
  }

  /** A run of event calls that goes through has spelled exactly the state it ends in. */
  lemma {:induction false} RunSpells(l: Language, r: RefState, prog: seq<Instr>) returns (r': RefState)
    requires (forall i | i in prog :: EventCall(i)) && Nested(r.parents, |r.children|)
    requires RefRun(l, CanonState(l, r), prog).Some?
    ensures RefRun(l, CanonState(l, r), prog).value == CanonState(l, r')
    ensures Nested(r'.parents, |r'.children|)
    ensures Spell(r'.parents, r'.children) == Spell(r.parents, r.children) + prog
    decreases prog
  {
    if prog == [] {
      r' := r;
      assert Spell(r.parents, r.children) + prog == Spell(r.parents, r.children);
    } else {
      RawExecMatches(l, r, prog[0]);
      var mid := RawExec(r, prog[0]).value;
      StepSpells(r, prog[0], mid);
      r' := RunSpells(l, mid, prog[1..]);
      Associate(Spell(r.parents, r.children), [prog[0]], prog[1..]);
      assert prog == [prog[0]] + prog[1..];
    }
  }

  lemma StepSpells(r: RefState, i: Instr, r': RefState)
    requires EventCall(i) && Nested(r.parents, |r.children|) && RawExec(r, i) == Some(r')
    ensures Nested(r'.parents, |r'.children|) && Spell(r'.parents, r'.children) == Spell(r.parents, r.children) + [i]
  {
    match i
    case Emit(kind, data) => SpellPush(r.parents, r.children, Leaf(kind, data));
    case Start(kind) => SpellOpen(r.parents, r.children, kind);
    case Close => SpellClose(r.parents, r.children);
  }

  // ----- one finished tree among open nodes

  function Opens(kinds: seq<u32>): seq<Instr> {
    seq(|kinds|, i requires 0 <= i < |kinds| => Start(kinds[i]))
  }

  lemma {:induction false} SpellNothing(parents: seq<Parent>) returns (kinds: seq<u32>)
    requires Nested(parents, 0)
    ensures Spell(parents, []) == Opens(kinds) && |kinds| == |parents|
    decreases parents
  {
    if parents == [] {
      kinds := [];
    } else {
      var n := |parents| - 1;
      var front := SpellNothing(parents[..n]);
      kinds := front + [parents[n].kind];
      var none: seq<Tree> := [];
      assert none[..0] == [] && none[0..] == [];
      assert Opens(kinds) == Opens(front) + [Start(parents[n].kind)];
    }
  }

  lemma {:induction false} SpellOne(parents: seq<Parent>, t: Tree) returns (before: seq<u32>, after: seq<u32>)
    requires Nested(parents, 1)
    ensures Spell(parents, [t]) == Opens(before) + Calls(t) + Opens(after)
    ensures |before| + |after| == |parents|
    decreases parents
  {
    CallsAllOne(t);
    if parents == [] {
      before, after := [], [];
      assert Opens([]) + Calls(t) + Opens([]) == Calls(t);
    } else {
      var n := |parents| - 1;
      var p := parents[n];
      if p.firstChild == 0 {
        var kinds := SpellNothing(parents[..n]);
        before, after := kinds + [p.kind], [];
        assert [t][..0] == [] && [t][0..] == [t];
        assert Opens(before) == Opens(kinds) + [Start(p.kind)];
        assert Opens(before) + Calls(t) + Opens(after) == Opens(before) + Calls(t);
      } else {
        var rest;
        before, rest := SpellOne(parents[..n], t);
        after := rest + [p.kind];
        assert [t][..1] == [t] && [t][1..] == [];
        assert Opens(after) == Opens(rest) + [Start(p.kind)];
        var a := Opens(before) + Calls(t);
        assert (a + Opens(rest)) + [Start(p.kind)] + [] == a + (Opens(rest) + [Start(p.kind)]);
      }
    }
  }

  // ----- counting calls

  function Closes(prog: seq<Instr>): nat {
    if prog == [] then 0 else Closes(prog[..|prog| - 1]) + if prog[|prog| - 1].Close? then 1 else 0
  }

  lemma ClosesConcat(a: seq<Instr>, b: seq<Instr>)
    ensures Closes(a + b) == Closes(a) + Closes(b)
  {
    SummedMapConcat(x => Closes(x), (i: Instr) => if i.Close? then 1 else 0, a, b);
  }

  lemma CountOne(i: Instr)
    ensures Starts([i]) == (if i.Start? then 1 else 0) && Closes([i]) == if i.Close? then 1 else 0
  {
    assert [i][..0] == [];
  }

  /** A tree's calls close what they start. */
  lemma {:induction false} CallsBalance(t: Tree)
    ensures Starts(Calls(t)) == Closes(Calls(t)) && (t.Branch? ==> Starts(Calls(t)) >= 1)
    decreases t, 0
  {
    match t
    case Branch(kind, ts) =>
      AllCallsBalance(ts);
      StartsAround(kind, ts);
      ClosesConcat([Start(kind)] + CallsAll(ts), [Close]);
      ClosesConcat([Start(kind)], CallsAll(ts));
      CountOne(Start(kind));
      CountOne(Close);
    case Leaf(kind, text) =>
      CountOne(Emit(kind, text));
  }

  lemma {:induction false} AllCallsBalance(ts: seq<Tree>)
    ensures Starts(CallsAll(ts)) == Closes(CallsAll(ts))
    decreases ts, 1
  {
    if ts != [] {
      var front, last := ts[..|ts| - 1], ts[|ts| - 1];
      AllCallsBalance(front);
      CallsBalance(last);
      StartsConcat(CallsAll(front), Calls(last));
      ClosesConcat(CallsAll(front), Calls(last));
    }
  }

  lemma {:induction false} OpensCount(kinds: seq<u32>)
    ensures Starts(Opens(kinds)) == |kinds| && Closes(Opens(kinds)) == 0
    decreases kinds
  {
    if kinds != [] {
      OpensCount(kinds[..|kinds| - 1]);
      assert Opens(kinds)[..|kinds| - 1] == Opens(kinds[..|kinds| - 1]);
    }
  }

  /** The stream spells the tree `t`, with nodes entered around it and never left. */
  predicate SpellsOneTree(events: seq<Event>, before: seq<u32>, t: Tree, after: seq<u32>) {
    t.Branch? && Instrs(events) == Opens(before) + Calls(t) + Opens(after)
  }

  lemma CountsOfOneTree(events: seq<Event>, before: seq<u32>, t: Tree, after: seq<u32>)
    requires SpellsOneTree(events, before, t, after)
    ensures |Flags(events)| == Starts(Instrs(events)) == Starts(Calls(t)) + |before| + |after|
    ensures Closes(Instrs(events)) == Starts(Calls(t)) >= 1
  {
    var a, b, c := Opens(before), Calls(t), Opens(after);
    FlagsPerStart(events);
    StartsConcat(a + b, c);
    StartsConcat(a, b);
    ClosesConcat(a + b, c);
    ClosesConcat(a, b);
    OpensCount(before);
    OpensCount(after);
    CallsBalance(t);
  }

  // ----- every stream the builder completes

  lemma EventsAreEventCalls(events: seq<Event>)
    ensures forall i | i in Instrs(events) :: EventCall(i)
  {
  }

  lemma CompletedRun(l: Language, events: seq<Event>, m: Machine, tree: GreenNode) returns (r: RefState)
    requires Run(l, Machine(NewState(EMPTY_CACHE), []), Instrs(events)) == Some(m) && Finish(m.b) == Some(tree)
    requires HeadsDistinct(Asked(l, events))
    ensures r.parents == m.b.parents && Nested(r.parents, |r.children|)
    ensures Spell(r.parents, r.children) == Instrs(events)
    ensures CanonAll(l, r.children) == AbsAll(l, m.b.cache.interner.values, [tree])
    ensures Good(l, m.b.cache.interner.values, tree)
  {
    var start, prog := Machine(NewState(EMPTY_CACHE), []), Instrs(events);
    RunMatchesTrees(l, start, EMPTY_REF, prog, Asked(l, events));
    RunKeepsValid(l, start, prog);
    EventsAreEventCalls(events);
    assert CanonState(l, EMPTY_REF) == EMPTY_REF;
    r := RunSpells(l, EMPTY_REF, prog);
    assert m.b.children == [tree] && tree in m.b.children;
    assert Spell([], []) + prog == prog;
  }

  /** Every stream the builder completes spells one tree, up to nodes that are never left, and that tree
      is what it is built into. */
  lemma CompletedStreamSpells(l: Language, events: seq<Event>, m: Machine, tree: GreenNode)
    returns (before: seq<u32>, t: Tree, after: seq<u32>)
    requires Run(l, Machine(NewState(EMPTY_CACHE), []), Instrs(events)) == Some(m) && Finish(m.b) == Some(tree)
    requires HeadsDistinct(Asked(l, events))
    ensures SpellsOneTree(events, before, t, after) && |before| + |after| == |m.b.parents|
    ensures Good(l, m.b.cache.interner.values, tree) && Abs(l, m.b.cache.interner.values, tree) == Canon(l, t)
  {
    var r := CompletedRun(l, events, m, tree);
    t := OnlyTree(l, m.b.cache.interner.values, r.children, tree);
    before, after := SpellOne(r.parents, t);
  }

  lemma OnlyTree(l: Language, values: seq<bytes>, ts: seq<Tree>, tree: GreenNode) returns (t: Tree)
    requires CanonAll(l, ts) == AbsAll(l, values, [tree])
    ensures ts == [t] && t.Branch? && Canon(l, t) == Abs(l, values, tree)
  {
    assert |ts| == |CanonAll(l, ts)| == |AbsAll(l, values, [tree])| == 1;
    t := ts[0];
    assert CanonAll(l, ts)[0] == AbsAll(l, values, [tree])[0];
  }

  /** Whatever the stream, if the builder completes it: every EnterNode event is a node of the tree or is
      still open, and there are as many nodes as LeaveNode events. */
  lemma NodesAndOpenNodes(l: Language, events: seq<Event>, m: Machine, tree: GreenNode)
    requires Run(l, Machine(NewState(EMPTY_CACHE), []), Instrs(events)) == Some(m) && Finish(m.b) == Some(tree)
    requires HeadsDistinct(Asked(l, events))
    ensures |NodesOf(Root(tree))| + |m.b.parents| == |Flags(events)| == Starts(Instrs(events))
    ensures |NodesOf(Root(tree))| == Closes(Instrs(events))
  {
    var before, t, after := CompletedStreamSpells(l, events, m, tree);
    CountsOfOneTree(events, before, t, after);
    NodesPerStart(l, m.b.cache.interner.values, Root(tree));
    CanonStarts(l, t);
  }

  /** Flags and nodes match one to one exactly when no node is left open, exactly when there are as many
      LeaveNode as EnterNode events, and exactly when the stream spells a tree. */
  lemma FlagsMatchNodesIffBalanced(l: Language, events: seq<Event>, m: Machine, tree: GreenNode)
    requires Run(l, Machine(NewState(EMPTY_CACHE), []), Instrs(events)) == Some(m) && Finish(m.b) == Some(tree)
    requires HeadsDistinct(Asked(l, events))
    ensures |Flags(events)| == |NodesOf(Root(tree))| <==> m.b.parents == []
    ensures m.b.parents == [] <==> Starts(Instrs(events)) == Closes(Instrs(events))
    ensures m.b.parents == [] <==> exists t: Tree :: t.Branch? && Instrs(events) == Calls(t)
  {
    NodesAndOpenNodes(l, events, m, tree);
    var before, t, after := CompletedStreamSpells(l, events, m, tree);
    if m.b.parents == [] {
      assert Opens(before) + Calls(t) + Opens(after) == Calls(t);
    }
    if u: Tree :| u.Branch? && Instrs(events) == Calls(u) {
      CallsBalance(u);
    }
  }

  // ----- which streams the builder completes

  lemma {:induction false} RefRunOpens(l: Language, r: RefState, kinds: seq<u32>) returns (more: seq<Parent>)
    ensures RefRun(l, r, Opens(kinds)) == Some(r.(parents := r.parents + more))
    decreases kinds
  {
    if kinds == [] {
      more := [];
      assert r.parents + [] == r.parents;
    } else {
      var n := |kinds| - 1;
      var front := RefRunOpens(l, r, kinds[..n]);
      var mid := r.(parents := r.parents + front);
      more := front + [Parent(kinds[n], |r.children|)];
      assert Opens(kinds) == Opens(kinds[..n]) + [Start(kinds[n])];
      RefRunConcat(l, r, Opens(kinds[..n]), [Start(kinds[n])]);
      RefRunOne(l, mid, Start(kinds[n]));
      assert mid.parents + [Parent(kinds[n], |r.children|)] == r.parents + more;
    }
  }

  lemma RefRunsOneTree(l: Language, before: seq<u32>, t: Tree, after: seq<u32>)
    ensures RefRun(l, EMPTY_REF, Opens(before) + Calls(t) + Opens(after)).Some?
    ensures RefRun(l, EMPTY_REF, Opens(before) + Calls(t) + Opens(after)).value.children == [Canon(l, t)]
  {
    var ps := RefRunOpens(l, EMPTY_REF, before);
    var one := EMPTY_REF.(parents := EMPTY_REF.parents + ps);
    CallsBuildTheTree(l, one, t);
    var two := one.(children := [Canon(l, t)]);
    assert one.children + [Canon(l, t)] == two.children;
    var qs := RefRunOpens(l, two, after);
    RefRunConcat(l, EMPTY_REF, Opens(before), Calls(t));
    RefRunConcat(l, EMPTY_REF, Opens(before) + Calls(t), Opens(after));
  }

  lemma OneTreeCompletes(l: Language, events: seq<Event>, before: seq<u32>, t: Tree, after: seq<u32>)
    requires SpellsOneTree(events, before, t, after) && HeadsDistinct(Asked(l, events))
    requires (forall i | i in Instrs(events) :: Payload(l, i)) && |events| <= U32_MAX
    ensures Run(l, Machine(NewState(EMPTY_CACHE), []), Instrs(events)).Some?
    ensures Finish(Run(l, Machine(NewState(EMPTY_CACHE), []), Instrs(events)).value.b).Some?
  {
    var start, prog := Machine(NewState(EMPTY_CACHE), []), Instrs(events);
    RefRunsOneTree(l, before, t, after);
    RunSucceeds(l, start, EMPTY_REF, prog);
    RunMatchesTrees(l, start, EMPTY_REF, prog, Asked(l, events));
    RunKeepsValid(l, start, prog);
    OneTree(l, Run(l, start, prog).value.b, Canon(l, t));
  }

  /** Of streams with valid payloads and without collisions, deserialising panics on exactly those that do
      not spell one tree, up to nodes never left. */
  lemma PanicsIffNotOneTree<D>(l: Language, events: seq<Event>, data: seq<D>)
    requires (forall i | i in Instrs(events) :: Payload(l, i)) && |events| <= U32_MAX && HeadsDistinct(Asked(l, events))
    ensures !Restore(l, events, data).Panicked? <==>
              exists before: seq<u32>, t: Tree, after: seq<u32> :: SpellsOneTree(events, before, t, after)
  {
    if !Restore(l, events, data).Panicked? {
      var m := Run(l, Machine(NewState(EMPTY_CACHE), []), Instrs(events)).value;
      var before, t, after := CompletedStreamSpells(l, events, m, Finish(m.b).value);
    }
    if before: seq<u32>, t: Tree, after: seq<u32> :| SpellsOneTree(events, before, t, after) {
      OneTreeCompletes(l, events, before, t, after);
    }
  }

  // ----- what happens to the data

  lemma {:induction false} AttachIgnoresTheRest<D>(n: nat, flags: seq<bool>, data: seq<D>)
    requires n <= |flags|
    ensures Attach(n, flags, data) == Attach(n, flags[..n], data)
    decreases n
  {
    if n > 0 {
      assert flags[..n][1..] == flags[1..][..n - 1];
      AttachIgnoresTheRest(n - 1, flags[1..], if flags[0] && data != [] then data[1..] else data);
    }
  }

  lemma {:induction false} MarksFollowFlags<D>(n: nat, flags: seq<bool>, data: seq<D>)
    requires n <= |flags| && Attach(n, flags, data).Some?
    ensures var marks := Attach(n, flags, data).value.0;
      |marks| == n && forall i | 0 <= i < n :: marks[i].Some? <==> flags[i]
    decreases n
  {
    if n > 0 {
      MarksFollowFlags(n - 1, flags[1..], if flags[0] then data[1..] else data);
    }
  }

  /** The data that marks hand out, in order. */
  function Given<D>(marks: seq<Option<D>>): seq<D> {
    if marks == [] then [] else (if marks[0].Some? then [marks[0].value] else []) + Given(marks[1..])
  }

  lemma {:induction false} MarksGiveData<D>(n: nat, flags: seq<bool>, data: seq<D>)
    requires Attach(n, flags, data).Some?
    ensures var (marks, rest) := Attach(n, flags, data).value; Given(marks) + rest == data
    decreases n
  {
    if n > 0 && flags != [] {
      MarksGiveData(n - 1, flags[1..], if flags[0] then data[1..] else data);
      var (marks, rest) := Attach(n - 1, flags[1..], if flags[0] then data[1..] else data).value;
      if flags[0] {
        assert ([Some(data[0])] + marks)[1..] == marks;
        Associate([data[0]], Given(marks), rest);
      } else {
        assert ([None] + marks)[1..] == marks;
        assert [] + Given(marks) == Given(marks);
      }
    }
  }

  /** On every stream the builder completes, balanced or not: deserialising succeeds exactly when as many
      of the first n flags are true as there are data, where n counts the LeaveNode events; and then the
      i-th node has data exactly if the i-th flag says so, and the data given are all the data, in order. */
  lemma SucceedsExactly<D>(l: Language, events: seq<Event>, data: seq<D>)
    requires HeadsDistinct(Asked(l, events)) && !Restore(l, events, data).Panicked?
    ensures var n := Closes(Instrs(events));
            var restored := Restore(l, events, data);
      && n <= |Flags(events)|
      && (restored.Restored? <==> Trues(Flags(events)[..n]) == |data|)
      && (restored.Restored? ==>
            |NodesOf(Root(restored.tree))| == n == |restored.marks|
            && (forall i | 0 <= i < n :: restored.marks[i].Some? <==> Flags(events)[i])
            && Given(restored.marks) == data)
  {
    var m := Run(l, Machine(NewState(EMPTY_CACHE), []), Instrs(events)).value;
    var tree, flags, n := Finish(m.b).value, Flags(events), Closes(Instrs(events));
    NodesAndOpenNodes(l, events, m, tree);
    AttachIgnoresTheRest(n, flags, data);
    AttachesExactly(n, flags[..n], data);
    if Attach(n, flags, data).Some? {
      MarksFollowFlags(n, flags, data);
      MarksGiveData(n, flags, data);
    }
  }

  lemma FlagsConcat(a: seq<Event>, b: seq<Event>)
    ensures Flags(a + b) == Flags(a) + Flags(b)
  {
    JoinedMapConcat(x => Flags(x), (e: Event) => if e.EnterNode? then [e.hasData] else [], a, b);
  }

  /** The flags that belong to the tree's own nodes start after those of the nodes entered before it and
      never left; the i-th node is given what the i-th flag of the whole stream says. */
  lemma OwnFlagsAreShifted(events: seq<Event>, before: seq<u32>, t: Tree, after: seq<u32>)
    requires SpellsOneTree(events, before, t, after)
    ensures |before| + |Calls(t)| <= |events| && |before| + Starts(Calls(t)) <= |Flags(events)|
    ensures Flags(events[|before|..|before| + |Calls(t)|]) == Flags(events)[|before|..|before| + Starts(Calls(t))]
  {
    var b, c := |before|, |Calls(t)|;
    assert |Instrs(events)| == |events|;
    var x, y, z := events[..b], events[b..b + c], events[b + c..];
    assert events == (x + y) + z;
    FlagsConcat(x + y, z);
    FlagsConcat(x, y);
    InstrsConcat(x + y, z);
    InstrsConcat(x, y);
    SameSplit(Instrs(x), Instrs(y), Instrs(z), Opens(before), Calls(t), Opens(after));
    FlagsPerStart(x);
    FlagsPerStart(y);
    OpensCount(before);
  }

  lemma SameSplit<T>(a: seq<T>, b: seq<T>, c: seq<T>, x: seq<T>, y: seq<T>, z: seq<T>)
    requires a + b + c == x + y + z && |a| == |x| && |b| == |y|
    ensures a == x && b == y
  {
    assert (a + b + c)[..|a|] == a && (x + y + z)[..|a|] == x;
    assert (a + b + c)[|a|..|a| + |b|] == b && (x + y + z)[|a|..|a| + |b|] == y;
  }
}

/** Whole runs and whole sessions of builders sharing one cache, under distinct heads; what a
    collision does; and when a run goes through at all. */
module Sharing {
  import opened Base
  import opened Interning
  import opened Green
  import opened BuilderSpec
  import opened Programs
  import opened Reference
  import opened Refinement
  import opened Survival

  /** The small nodes a run asks the cache for, built without it. */
  function Requested(l: Language, m: Machine, prog: seq<Instr>): set<GreenNode>
    decreases prog
  {
    if prog == [] || Exec(l, m, prog[0]).None? then {}
    else
      var rest := Requested(l, Exec(l, m, prog[0]).value, prog[1..]);
      if prog[0].Close? && |Drained(m.b)| <= CHILDREN_CACHE_THRESHOLD then
        rest + {MakeNode(l.hasher, m.b.parents[|m.b.parents| - 1].kind, Drained(m.b))}
      else rest
  }

  /** No two different nodes among these share kind, length and child hash. */
  predicate HeadsDistinct(nodes: set<GreenNode>) {
    forall a, b | a in nodes && b in nodes :: a.head == b.head ==> a == b
  }

  lemma ExecCacheGrowsByRequest(l: Language, m: Machine, i: Instr)
    requires ValidState(l, m.b) && Exec(l, m, i).Some?
    ensures var m' := Exec(l, m, i).value;
      && m'.b.cache.nodes.Values <= m.b.cache.nodes.Values + Requested(l, m, [i])
      && m.b.cache.interner.values <= m'.b.cache.interner.values
  {
    var m' := Exec(l, m, i).value;
    match i
    case Emit(kind, data) => AddTokenMatches(l, m.b, kind, data);
    case EmitStatic(kind) => AddTokenMatches(l, m.b, kind, []); StaticTokenIsToken(l, m.b, kind);
    case Close =>
      CacheGrowsByNode(l, m.b.cache, m.b.parents[|m.b.parents| - 1].kind, Drained(m.b));
      assert [i][1..] == [] && Requested(l, m', []) == {};
    case _ =>
  }

  lemma CacheGrowsByNode(l: Language, cache: Cache, kind: u32, cs: seq<Element>)
    ensures var cache' := CacheNode(l.hasher, cache, kind, cs).1;
      && cache'.interner == cache.interner
      && cache'.nodes.Values <= cache.nodes.Values +
           if |cs| <= CHILDREN_CACHE_THRESHOLD then {MakeNode(l.hasher, kind, cs)} else {}
  {
  }

  lemma DistinctHeadsExcludeCollision(l: Language, s: State, nodes: set<GreenNode>)
    requires ValidState(l, s) && s.parents != [] && HeadsDistinct(nodes)
    requires s.cache.nodes.Values <= nodes
    requires |Drained(s)| <= CHILDREN_CACHE_THRESHOLD ==>
               MakeNode(l.hasher, s.parents[|s.parents| - 1].kind, Drained(s)) in nodes
    ensures NoCollision(l, s)
  {
    var head := HeadOf(l.hasher, s.parents[|s.parents| - 1].kind, Drained(s));
    if |Drained(s)| <= CHILDREN_CACHE_THRESHOLD && head in s.cache.nodes {
      assert s.cache.nodes[head] in s.cache.nodes.Values;
    }
  }

  /** Over a whole run: if no two of the small nodes cached or requested collide, the builder holds
      the reference builder's trees throughout. */
  lemma {:induction false} RunMatchesTrees(l: Language, m: Machine, r: RefState, prog: seq<Instr>, nodes: set<GreenNode>)
    requires ValidState(l, m.b) && TreeSim(l, m, r) && Run(l, m, prog).Some?
    requires HeadsDistinct(nodes) && m.b.cache.nodes.Values + Requested(l, m, prog) <= nodes
    ensures RefRun(l, r, prog).Some? && TreeSim(l, Run(l, m, prog).value, RefRun(l, r, prog).value)
    ensures Run(l, m, prog).value.b.cache.nodes.Values <= nodes
    ensures m.b.cache.interner.values <= Run(l, m, prog).value.b.cache.interner.values
    decreases prog
  {
    if prog != [] {
      var i := prog[0];
      if i.Close? {
        DistinctHeadsExcludeCollision(l, m.b, nodes);
      }
      ExecMatchesTrees(l, m, r, i);
      ExecCacheGrowsByRequest(l, m, i);
      ExecKeepsValid(l, m, i);
      RequestedFirst(l, m, prog);
      RunMatchesTrees(l, Exec(l, m, i).value, RefExec(l, r, i).value, prog[1..], nodes);
    }
  }

  lemma RequestedFirst(l: Language, m: Machine, prog: seq<Instr>)
    requires prog != [] && Exec(l, m, prog[0]).Some?
    ensures Requested(l, m, prog) == Requested(l, m, [prog[0]]) + Requested(l, Exec(l, m, prog[0]).value, prog[1..])
  {
    assert [prog[0]][1..] == [];
    assert Requested(l, Exec(l, m, prog[0]).value, []) == {};
  }

  /** No `finish_node` along the run meets a collision. */
  predicate NoCollisions(l: Language, m: Machine, prog: seq<Instr>)
    decreases prog
  {
    prog != [] && Exec(l, m, prog[0]).Some? ==>
      && (prog[0].Close? ==> NoCollision(l, m.b))
      && NoCollisions(l, Exec(l, m, prog[0]).value, prog[1..])
  }

  /** After the first `k` calls, if they went through, the builder holds the reference builder's trees. */
  ghost predicate InStepAt(l: Language, m: Machine, r: RefState, prog: seq<Instr>, k: nat)
    requires k <= |prog|
  {
    Run(l, m, prog[..k]).Some? ==>
      RefRun(l, r, prog[..k]).Some? && TreeSim(l, Run(l, m, prog[..k]).value, RefRun(l, r, prog[..k]).value)
  }

  lemma InStepOneLater(l: Language, m: Machine, r: RefState, prog: seq<Instr>, k: nat)
    requires k < |prog| && Exec(l, m, prog[0]).Some? && RefExec(l, r, prog[0]).Some?
    ensures InStepAt(l, m, r, prog, k + 1) <==>
              InStepAt(l, Exec(l, m, prog[0]).value, RefExec(l, r, prog[0]).value, prog[1..], k)
  {
    assert prog[..k + 1][1..] == prog[1..][..k];
  }

  /** Over a whole run: the real builder is in step with the reference builder after every call if and
      only if no `finish_node` along the run meets a collision. */
  lemma {:induction false} RunInStepIffNoCollisions(l: Language, m: Machine, r: RefState, prog: seq<Instr>)
    requires ValidState(l, m.b) && TreeSim(l, m, r)
    ensures (forall k | 0 <= k <= |prog| :: InStepAt(l, m, r, prog, k)) <==> NoCollisions(l, m, prog)
    decreases prog
  {
    assert InStepAt(l, m, r, prog, 0) by { assert prog[..0] == []; }
    if prog != [] {
      if Exec(l, m, prog[0]).Some? {
        InStepAfterFirst(l, m, r, prog);
      } else {
        StuckIsInStep(l, m, r, prog);
      }
    }
  }

  lemma StuckIsInStep(l: Language, m: Machine, r: RefState, prog: seq<Instr>)
    requires prog != [] && Exec(l, m, prog[0]).None? && TreeSim(l, m, r)
    ensures forall k | 0 <= k <= |prog| :: InStepAt(l, m, r, prog, k)
  {
    forall k | 0 <= k <= |prog| ensures InStepAt(l, m, r, prog, k) {
      if k == 0 {
        assert prog[..0] == [];
      } else {
        assert prog[..k][0] == prog[0];
      }
    }
  }

  lemma {:induction false} InStepAfterFirst(l: Language, m: Machine, r: RefState, prog: seq<Instr>)
    requires ValidState(l, m.b) && TreeSim(l, m, r) && prog != [] && Exec(l, m, prog[0]).Some?
    ensures (forall k | 0 <= k <= |prog| :: InStepAt(l, m, r, prog, k)) <==> NoCollisions(l, m, prog)
    decreases prog, 0
  {
    var i, m' := prog[0], Exec(l, m, prog[0]).value;
    FirstStep(l, m, r, i);
    var r' := RefExec(l, r, i).value;
    InStepOneLater(l, m, r, prog, 0);
    assert prog[1..][..0] == [];
    assert InStepAt(l, m, r, prog, 1) <==> TreeSim(l, m', r');
    if TreeSim(l, m', r') {
      ExecKeepsValid(l, m, i);
      RunInStepIffNoCollisions(l, m', r', prog[1..]);
      ShiftedSteps(l, m, r, prog, m', r');
    } else {
      assert !InStepAt(l, m, r, prog, 1);
    }
  }

  /** One call stays in step unless it finishes a node and meets a collision. */
  lemma FirstStep(l: Language, m: Machine, r: RefState, i: Instr)
    requires ValidState(l, m.b) && TreeSim(l, m, r) && Exec(l, m, i).Some?
    ensures RefExec(l, r, i).Some?
    ensures TreeSim(l, Exec(l, m, i).value, RefExec(l, r, i).value) <==> (i.Close? ==> NoCollision(l, m.b))
  {
    if i.Close? {
      CloseFaithfulIffNoCollision(l, m, r);
    } else {
      ExecMatchesTrees(l, m, r, i);
    }
  }

  lemma ShiftedSteps(l: Language, m: Machine, r: RefState, prog: seq<Instr>, m': Machine, r': RefState)
    requires prog != [] && Exec(l, m, prog[0]) == Some(m') && RefExec(l, r, prog[0]) == Some(r') && TreeSim(l, m, r)
    ensures (forall k | 0 <= k <= |prog| :: InStepAt(l, m, r, prog, k)) <==>
            (forall k | 0 <= k <= |prog| - 1 :: InStepAt(l, m', r', prog[1..], k))
  {
    assert InStepAt(l, m, r, prog, 0) by { assert prog[..0] == []; }
    forall k | 0 <= k < |prog| ensures InStepAt(l, m, r, prog, k + 1) <==> InStepAt(l, m', r', prog[1..], k) {
      InStepOneLater(l, m, r, prog, k);
    }
    if forall k | 0 <= k <= |prog| - 1 :: InStepAt(l, m', r', prog[1..], k) {
      forall k | 0 <= k <= |prog| ensures InStepAt(l, m, r, prog, k) {
        if k > 0 {
          assert InStepAt(l, m', r', prog[1..], k - 1);
        }
      }
    }
    if forall k | 0 <= k <= |prog| :: InStepAt(l, m, r, prog, k) {
      forall k | 0 <= k <= |prog| - 1 ensures InStepAt(l, m', r', prog[1..], k) {
        assert InStepAt(l, m, r, prog, k + 1);
      }
    }
  }

  // ----- sessions: one cache, one builder after another

  function Session(l: Language, cache: Cache, progs: seq<seq<Instr>>): Option<(seq<GreenNode>, Cache)> {
    if progs == [] then Some(([], cache)) else
    var n := |progs| - 1;
    match Session(l, cache, progs[..n])
    case None => None
    case Some((roots, shared)) =>
      match Run(l, Machine(NewState(shared), []), progs[n])
      case None => None
      case Some(m) => if Finish(m.b).Some? then Some((roots + [Finish(m.b).value], m.b.cache)) else None
  }

  function SessionRequested(l: Language, cache: Cache, progs: seq<seq<Instr>>): set<GreenNode> {
    if progs == [] then {} else
    var n := |progs| - 1;
    match Session(l, cache, progs[..n])
    case None => {}
    case Some((_, shared)) =>
      SessionRequested(l, cache, progs[..n]) + Requested(l, Machine(NewState(shared), []), progs[n])
  }

  function RefSession(l: Language, progs: seq<seq<Instr>>): Option<seq<Tree>> {
    if progs == [] then Some([]) else
    var n := |progs| - 1;
    match (RefSession(l, progs[..n]), RefRun(l, EMPTY_REF, progs[n]))
    case (Some(ts), Some(r)) => if |r.children| == 1 && r.children[0].Branch? then Some(ts + r.children) else None
    case _ => None
  }

  /** However many builders share a cache, each finishes with the reference builder's tree, and all
      of them still resolve to it once the last one is done. */
  lemma {:induction false} SharedCacheIsInvisible(l: Language, cache: Cache, progs: seq<seq<Instr>>, nodes: set<GreenNode>)
    requires ValidCache(l, cache) && Session(l, cache, progs).Some?
    requires HeadsDistinct(nodes) && cache.nodes.Values + SessionRequested(l, cache, progs) <= nodes
    ensures var (roots, shared) := Session(l, cache, progs).value;
      && ValidCache(l, shared) && shared.nodes.Values <= nodes
      && AllGood(l, shared.interner.values, roots)
      && RefSession(l, progs) == Some(AbsAll(l, shared.interner.values, roots))
    decreases progs
  {
    if progs == [] {
      assert AbsAll(l, cache.interner.values, []) == [];
    } else {
      var n := |progs| - 1;
      SharedCacheIsInvisible(l, cache, progs[..n], nodes);
      var (roots, shared) := Session(l, cache, progs[..n]).value;
      OneMoreBuilder(l, shared, progs[n], nodes, roots);
      var s := Run(l, Machine(NewState(shared), []), progs[n]).value.b;
      assert Session(l, cache, progs).value == (roots + [Finish(s).value], s.cache);
      var r := RefRun(l, EMPTY_REF, progs[n]).value;
      assert |r.children| == 1 && r.children[0].Branch?;
    }
  }

  lemma OneMoreBuilder(l: Language, shared: Cache, prog: seq<Instr>, nodes: set<GreenNode>, roots: seq<GreenNode>)
    requires ValidCache(l, shared) && AllGood(l, shared.interner.values, roots)
    requires HeadsDistinct(nodes) && shared.nodes.Values <= nodes
    requires Requested(l, Machine(NewState(shared), []), prog) <= nodes
    requires Run(l, Machine(NewState(shared), []), prog).Some?
    requires Finish(Run(l, Machine(NewState(shared), []), prog).value.b).Some?
    ensures var s := Run(l, Machine(NewState(shared), []), prog).value.b;
            var root := Finish(s).value;
            var values := s.cache.interner.values;
      && ValidCache(l, s.cache) && s.cache.nodes.Values <= nodes
      && AllGood(l, values, roots + [root])
      && AbsAll(l, values, roots + [root]) == AbsAll(l, shared.interner.values, roots) + [Abs(l, values, root)]
      && RefRun(l, EMPTY_REF, prog).Some?
      && RefRun(l, EMPTY_REF, prog).value.children == [Abs(l, values, root)]
      && Abs(l, values, root).Branch?
  {
    var m := Machine(NewState(shared), []);
    var s := Run(l, m, prog).value.b;
    var root := Finish(s).value;
    RunMatchesTrees(l, m, EMPTY_REF, prog, nodes);
    RunKeepsValid(l, m, prog);
    AllGoodGrows(l, shared.interner.values, s.cache.interner.values, roots);
    AbsAllGrows(l, shared.interner.values, s.cache.interner.values, roots);
    AbsAllAppend(l, s.cache.interner.values, roots, root);
    assert s.children == [root];
  }

  // ----- losslessness

  /** With distinct heads nothing is lost or reordered: the finished tree's leaves, resolved through
      the interner, are the tokens pushed and not reverted, in order, in every run that reverts to
      live checkpoints only. */
  lemma BuilderIsLossless(l: Language, cache: Cache, prog: seq<Instr>, nodes: set<GreenNode>)
    requires ValidCache(l, cache) && HeadsDistinct(nodes) && AllRevertsLive(l, EMPTY_LEDGER, prog)
    requires cache.nodes.Values + Requested(l, Machine(NewState(cache), []), prog) <= nodes
    requires Run(l, Machine(NewState(cache), []), prog).Some?
    requires Finish(Run(l, Machine(NewState(cache), []), prog).value.b).Some?
    ensures var s := Run(l, Machine(NewState(cache), []), prog).value.b;
      LeavesOf(Abs(l, s.cache.interner.values, Finish(s).value)) == Survivors(l, prog)
  {
    OneMoreBuilder(l, cache, prog, nodes, []);
    RefRunYieldsSurvivors(l, EMPTY_REF, EMPTY_LEDGER, prog);
    LeavesOfOne(RefRun(l, EMPTY_REF, prog).value.children[0]);
  }

  /** A pushed token keeps the bytes it was pushed with exactly when its kind has no fixed text or
      the bytes are that text; the release build does not look. */
  lemma TextKeptIffNotOverridden(l: Language, m: Machine, kind: u32, data: bytes)
    requires ValidState(l, m.b) && AddToken(l, m.b, kind, data).Some?
    ensures var s := AddToken(l, m.b, kind, data).value;
      Abs(l, s.cache.interner.values, s.children[|s.children| - 1]) == Leaf(kind, data)
      <==> (l.staticData(kind).Some? ==> l.staticData(kind).value == data)
  {
    AddTokenMatches(l, m.b, kind, data);
  }

  // ----- when a run goes through

  /** A token whose text is stored must be a valid payload. */
  predicate Payload(l: Language, i: Instr) {
    i.Emit? && l.staticData(i.kind).None? ==> l.valid(i.data)
  }

  lemma ExecSucceeds(l: Language, m: Machine, r: RefState, i: Instr)
    requires ValidState(l, m.b) && LengthSim(m, r) && RefExec(l, r, i).Some?
    requires Payload(l, i) && |m.b.cache.interner.values| < U32_MAX
    ensures Exec(l, m, i).Some?
    ensures |Exec(l, m, i).value.b.cache.interner.values| <= |m.b.cache.interner.values| + 1
  {
    match i
    case Emit(kind, data) => InternIsInverse(l.valid, m.b.cache.interner, data);
    case Close =>
      CacheNodeKeepsHeads(l, m.b.cache, m.b.parents[|m.b.parents| - 1].kind, Drained(m.b));
    case _ =>
  }

  /** A run the reference builder completes, of valid payloads and no longer than the key space has
      room, does not panic in the real one either. */
  lemma {:induction false} RunSucceeds(l: Language, m: Machine, r: RefState, prog: seq<Instr>)
    requires ValidState(l, m.b) && LengthSim(m, r) && RefRun(l, r, prog).Some?
    requires forall i | i in prog :: Payload(l, i)
    requires |m.b.cache.interner.values| + |prog| <= U32_MAX
    ensures Run(l, m, prog).Some?
    decreases prog
  {
    if prog != [] {
      ExecSucceeds(l, m, r, prog[0]);
      ExecMatchesLengths(l, m, r, prog[0]);
      ExecKeepsValid(l, m, prog[0]);
      RunSucceeds(l, Exec(l, m, prog[0]).value, RefExec(l, r, prog[0]).value, prog[1..]);
    }
  }

  /** Making a tree's calls on any cache, if no heads collide, goes through, closes every node it
      opens and finishes with that tree. */
  lemma CallsFinishTheTree(l: Language, cache: Cache, t: Tree, nodes: set<GreenNode>)
    requires ValidCache(l, cache) && t.Branch? && HeadsDistinct(nodes)
    requires cache.nodes.Values + Requested(l, Machine(NewState(cache), []), Calls(t)) <= nodes
    requires forall i | i in Calls(t) :: Payload(l, i)
    requires |cache.interner.values| + |Calls(t)| <= U32_MAX
    ensures var run := Run(l, Machine(NewState(cache), []), Calls(t));
      && run.Some? && run.value.b.parents == [] && Finish(run.value.b).Some?
      && ValidCache(l, run.value.b.cache)
      && Good(l, run.value.b.cache.interner.values, Finish(run.value.b).value)
      && Abs(l, run.value.b.cache.interner.values, Finish(run.value.b).value) == Canon(l, t)
  {
    var m := Machine(NewState(cache), []);
    CallsBuildTheTree(l, EMPTY_REF, t);
    RunSucceeds(l, m, EMPTY_REF, Calls(t));
    RunMatchesTrees(l, m, EMPTY_REF, Calls(t), nodes);
    RunKeepsValid(l, m, Calls(t));
    OneTree(l, Run(l, m, Calls(t)).value.b, Canon(l, t));
  }

  lemma OneTree(l: Language, s: State, t: Tree)
    requires ValidState(l, s) && t.Branch? && AbsAll(l, s.cache.interner.values, s.children) == [t]
    ensures Finish(s).Some? && Good(l, s.cache.interner.values, Finish(s).value)
    ensures Abs(l, s.cache.interner.values, Finish(s).value) == t
  {
    assert |s.children| == 1 && AbsAll(l, s.cache.interner.values, s.children)[0] == t;
    assert s.children[0] in s.children;
  }

  // ----- what a collision does

  /** Node `outer` around one token of kind `inner`. */
  function Wrapped(outer: u32, inner: u32, data: bytes): seq<Instr> {
    [Start(outer), Emit(inner, data), Close]
  }

  lemma RunWrapped(l: Language, m: Machine, outer: u32, inner: u32, data: bytes)
    ensures Run(l, m, Wrapped(outer, inner, data)) ==
      match AddToken(l, StartNode(m.b, outer), inner, data)
      case Some(s) => Lift(FinishNode(l, s), m.cps)
      case None => None
  {
    var m1 := m.(b := StartNode(m.b, outer));
    var prog := [Start(outer)] + [Emit(inner, data)];
    RunOne(l, m, Start(outer));
    RunThen(l, m, [Start(outer)], m1, Emit(inner, data));
    assert Wrapped(outer, inner, data) == prog + [Close];
    match AddToken(l, StartNode(m.b, outer), inner, data)
    case Some(s) => RunThen(l, m, prog, m1.(b := s), Close);
    case None => RunConcat(l, m, prog, [Close]);
  }

  /** The head of a node around one token whose text is interned under `key`. */
  function OneTokenHead(l: Language, outer: u32, inner: u32, key: TokenKey, data: bytes): Head {
    HeadOf(l.hasher, outer, [Token(GreenToken(inner, Some(key), Wrap(|data|)))])
  }

  /** One more node around a fresh token: unless its head is in the cache already, it is built. */
  lemma OneTokenNode(l: Language, m: Machine, outer: u32, inner: u32, data: bytes)
    requires m.b.parents == [] && l.staticData(inner) == None && l.valid(data) && ValidState(l, m.b)
    requires data !in m.b.cache.interner.keys && |m.b.cache.interner.values| + 1 < U32_MAX
    ensures var was := m.b.cache.interner;
            var key := |was.values| + 1;
            var head := OneTokenHead(l, outer, inner, key, data);
            var run := Run(l, m, Wrapped(outer, inner, data));
      && run.Some? && run.value.b.parents == []
      && run.value.b.cache.interner == Interner(was.keys[data := key], was.values + [data])
      && run.value.b.cache.nodes.Keys == m.b.cache.nodes.Keys + {head}
      && run.value.b.cache.nodes[head] ==
           (if head in m.b.cache.nodes then m.b.cache.nodes[head]
            else Node(head, [Token(GreenToken(inner, Some(key), Wrap(|data|)))]))
      && run.value.b.children == m.b.children + [run.value.b.cache.nodes[head]]
  {
    var s := AddToken(l, StartNode(m.b, outer), inner, data).value;
    OneTokenAdded(l, m.b, outer, inner, data);
    RunWrapped(l, m, outer, inner, data);
  }

  lemma OneTokenAdded(l: Language, b: State, outer: u32, inner: u32, data: bytes)
    requires b.parents == [] && l.staticData(inner) == None && l.valid(data) && ValidCache(l, b.cache)
    requires data !in b.cache.interner.keys && |b.cache.interner.values| + 1 < U32_MAX
    ensures var was := b.cache.interner;
            var key := |was.values| + 1;
            var token := Token(GreenToken(inner, Some(key), Wrap(|data|)));
            var added := AddToken(l, StartNode(b, outer), inner, data);
      && added.Some? && added.value.parents == [Parent(outer, |b.children|)]
      && added.value.cache.interner == Interner(was.keys[data := key], was.values + [data])
      && added.value.cache.nodes == b.cache.nodes
      && added.value.children[|b.children|..] == [token] && added.value.children[..|b.children|] == b.children
  {
    var was := b.cache.interner;
    var key: TokenKey := |was.values| + 1;
    assert Intern(l.valid, was, data) == (Ok(key), Interner(was.keys[data := key], was.values + [data]));
    assert AddToken(l, StartNode(b, outer), inner, data).value.children == b.children + [Token(GreenToken(inner, Some(key), Wrap(|data|)))];
  }

  /** Whatever the hasher: if the heads of two nodes around different texts agree, the second node comes
      back as the first one, and the text pushed second is stored as the text pushed first. */
  lemma CollisionLosesText(l: Language, m: Machine, outer: u32, inner: u32, first: bytes, second: bytes)
    requires m.b == NewState(EMPTY_CACHE) && first != second
    requires l.staticData(inner) == None && l.valid(first) && l.valid(second)
    requires OneTokenHead(l, outer, inner, 1, first) == OneTokenHead(l, outer, inner, 2, second)
    ensures var run := Run(l, m, Wrapped(outer, inner, first) + Wrapped(outer, inner, second));
      && run.Some?
      && AbsAll(l, run.value.b.cache.interner.values, run.value.b.children)
           == [Branch(outer, [Leaf(inner, first)]), Branch(outer, [Leaf(inner, first)])]
  {
    assert ValidState(l, m.b);
    OneTokenNode(l, m, outer, inner, first);
    var m1 := Run(l, m, Wrapped(outer, inner, first)).value;
    var node := m1.b.cache.nodes[OneTokenHead(l, outer, inner, 1, first)];
    RunKeepsValid(l, m, Wrapped(outer, inner, first));
    RunConcat(l, m, Wrapped(outer, inner, first), Wrapped(outer, inner, second));
    assert [] + [node] == [node] && [] + [first] == [first];
    SecondComesBack(l, m1, outer, inner, first, second, node);
    TwiceTheFirst(l, node, [first] + [second], outer, inner, first);
  }

  lemma SecondComesBack(l: Language, m: Machine, outer: u32, inner: u32, first: bytes, second: bytes, node: GreenNode)
    requires m.b.parents == [] && l.staticData(inner) == None && l.valid(second) && ValidState(l, m.b)
    requires m.b.cache.interner.values == [first] && second !in m.b.cache.interner.keys && m.b.children == [node]
    requires var head := OneTokenHead(l, outer, inner, 2, second);
      head in m.b.cache.nodes && m.b.cache.nodes[head] == node
    ensures var run := Run(l, m, Wrapped(outer, inner, second));
      run.Some? && run.value.b.cache.interner.values == [first] + [second] && run.value.b.children == [node] + [node]
  {
    OneTokenNode(l, m, outer, inner, second);
  }

  lemma TwiceTheFirst(l: Language, node: GreenNode, values: seq<bytes>, outer: u32, inner: u32, first: bytes)
    requires node.head.kind == outer && node.children == [Token(GreenToken(inner, Some(1), Wrap(|first|)))]
    requires l.staticData(inner) == None && |values| > 0 && values[0] == first
    ensures AbsAll(l, values, [node] + [node]) == [Branch(outer, [Leaf(inner, first)]), Branch(outer, [Leaf(inner, first)])]
  {
    assert AbsAll(l, values, node.children) == [Leaf(inner, first)];
    AbsAllAppend(l, values, [node], node);
    AbsAllAppend(l, values, [], node);
    assert [] + [node] == [node] && AbsAll(l, values, []) == [];
  }

  /** Such hashers exist: the constant one makes any two one-token nodes of equal kind and length agree. */
  lemma ConstantHasherCollides(l: Language, outer: u32, inner: u32, first: bytes, second: bytes)
    requires l.hasher == Hasher(0, (state, digest) => 0, state => 0) && |first| == |second|
    ensures OneTokenHead(l, outer, inner, 1, first) == OneTokenHead(l, outer, inner, 2, second)
  {
    var a, b := Token(GreenToken(inner, Some(1), Wrap(|first|))), Token(GreenToken(inner, Some(2), Wrap(|second|)));
    assert [a][..0] == [] && [b][..0] == [];
  }
}

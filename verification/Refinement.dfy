/** The real builder against the reference one: lengths agree in every run, trees agree in every
    run without a head collision, and a collision is exactly what makes them differ. */
module Refinement {
  import opened Base
  import opened Interning
  import opened Green
  import opened BuilderSpec
  import opened Programs
  import opened Reference
  import opened Survival

  /** A token's text: its kind's fixed text, or what its key resolves to. */
  function TokenText(l: Language, values: seq<bytes>, t: GreenToken): bytes {
    match l.staticData(t.kind)
    case Some(text) => text
    case None => if t.key.Some? && IntoU32(t.key.value) < |values| then values[IntoU32(t.key.value)] else []
  }

  /** The plain tree a green element stands for. */
  function Abs(l: Language, values: seq<bytes>, e: Element): Tree
    decreases e, 0
  {
    match e
    case Node(head, cs) => Branch(head.kind, AbsAll(l, values, cs))
    case Token(t) => Leaf(t.kind, TokenText(l, values, t))
  }

  function AbsAll(l: Language, values: seq<bytes>, cs: seq<Element>): seq<Tree>
    decreases cs, 1
  {
    seq(|cs|, i requires 0 <= i < |cs| => Abs(l, values, cs[i]))
  }

  lemma {:induction false} AbsGrows(l: Language, values: seq<bytes>, more: seq<bytes>, e: Element)
    requires Known(l, values, e) && values <= more
    ensures Abs(l, more, e) == Abs(l, values, e)
    decreases e, 0
  {
    if e.Node? {
      AbsAllGrows(l, values, more, e.children);
    }
  }

  lemma {:induction false} AbsAllGrows(l: Language, values: seq<bytes>, more: seq<bytes>, cs: seq<Element>)
    requires AllKnown(l, values, cs) && values <= more
    ensures AbsAll(l, more, cs) == AbsAll(l, values, cs)
    decreases cs, 1
  {
    forall i | 0 <= i < |cs| ensures Abs(l, more, cs[i]) == Abs(l, values, cs[i]) {
      AbsGrows(l, values, more, cs[i]);
    }
  }

  /** Hash-consing is canonical: two elements the builder can hold that stand for the same plain
      tree are the same element, keys, lengths and hashes included. */
  lemma {:induction false} AbsInjective(l: Language, interner: Interner, a: Element, b: Element)
    requires interner.Valid() && Good(l, interner.values, a) && Good(l, interner.values, b)
    requires Abs(l, interner.values, a) == Abs(l, interner.values, b)
    ensures a == b
    decreases a, 0
  {
    match a
    case Token(t) =>
      if l.staticData(t.kind).None? {
        var u := b.token;
        assert interner.values[IntoU32(t.key.value)] == interner.values[IntoU32(u.key.value)];
      }
    case Node(head, cs) =>
      GoodChildren(l, interner.values, a);
      GoodChildren(l, interner.values, b);
      AbsAllInjective(l, interner, cs, b.children);
  }

  lemma {:induction false} AbsAllInjective(l: Language, interner: Interner, cs: seq<Element>, ds: seq<Element>)
    requires interner.Valid() && AllGood(l, interner.values, cs) && AllGood(l, interner.values, ds)
    requires AbsAll(l, interner.values, cs) == AbsAll(l, interner.values, ds)
    ensures cs == ds
    decreases cs, 1
  {
    assert |cs| == |AbsAll(l, interner.values, cs)| == |ds|;
    forall i | 0 <= i < |cs| ensures cs[i] == ds[i] {
      assert AbsAll(l, interner.values, cs)[i] == AbsAll(l, interner.values, ds)[i];
      AbsInjective(l, interner, cs[i], ds[i]);
    }
  }

  // ----- lengths, with no hypothesis on the hash

  ghost predicate SameLengths(cs: seq<Element>, ts: seq<Tree>) {
    |cs| == |ts| && forall i | 0 <= i < |cs| :: TextLen(cs[i]) == Wrap(|Text(ts[i])|)
  }

  ghost predicate LengthSim(m: Machine, r: RefState) {
    m.b.parents == r.parents && m.cps == r.cps && SameLengths(m.b.children, r.children)
  }

  lemma {:induction false} SumLenMatches(cs: seq<Element>, ts: seq<Tree>)
    requires SameLengths(cs, ts)
    ensures SumLen(cs) == Wrap(|TextAll(ts)|)
    decreases cs
  {
    if cs != [] {
      var n := |cs| - 1;
      SumLenMatches(cs[..n], ts[..n]);
      WrapAdd(|TextAll(ts[..n])|, |Text(ts[n])|);
    }
  }

  lemma AddTokenMatches(l: Language, s: State, kind: u32, data: bytes)
    requires ValidState(l, s) && AddToken(l, s, kind, data).Some?
    ensures var t := AddToken(l, s, kind, data).value;
      && ValidState(l, t)
      && t.parents == s.parents
      && s.cache.interner.values <= t.cache.interner.values
      && t.cache.nodes == s.cache.nodes
      && exists e :: t.children == s.children + [e]
           && Abs(l, t.cache.interner.values, e) == Leaf(kind, TextFor(l, kind, data))
           && TextLen(e) == Wrap(|TextFor(l, kind, data)|)
  {
    AddTokenKeepsValid(l, s, kind, data);
    InternIsInverse(l.valid, s.cache.interner, data);
    var t := AddToken(l, s, kind, data).value;
    var (r, interner) := Intern(l.valid, s.cache.interner, data);
    var token := match l.staticData(kind)
      case Some(text) => GreenToken(kind, None, Wrap(|text|))
      case None => GreenToken(kind, Some(r.value), Wrap(|data|));
    assert t.children == s.children + [Token(token)];
    if l.staticData(kind).None? {
      assert interner.TryResolve(r.value) == Some(data);
    }
    assert Abs(l, t.cache.interner.values, Token(token)) == Leaf(kind, TextFor(l, kind, data));
  }

  lemma StaticTokenIsToken(l: Language, s: State, kind: u32)
    ensures AddStaticToken(l, s, kind) == if l.staticData(kind).Some? then AddToken(l, s, kind, []) else None
  {
  }

  lemma CloseMatchesLengths(l: Language, m: Machine, r: RefState)
    requires ValidState(l, m.b) && LengthSim(m, r) && m.b.parents != []
    ensures Exec(l, m, Close).Some? && RefExec(l, r, Close).Some?
    ensures LengthSim(Exec(l, m, Close).value, RefExec(l, r, Close).value)
  {
    var p := m.b.parents[|m.b.parents| - 1];
    var cs, ts := m.b.children[p.firstChild..], r.children[p.firstChild..];
    var (node, _) := CacheNode(l.hasher, m.b.cache, p.kind, cs);
    assert TextLen(node) == SumLen(cs) by { CacheNodeKeepsHeads(l, m.b.cache, p.kind, cs); }
    assert SumLen(cs) == Wrap(|Text(Branch(p.kind, ts))|) by { SumLenMatches(cs, ts); }
  }

  lemma ExecMatchesLengths(l: Language, m: Machine, r: RefState, i: Instr)
    requires ValidState(l, m.b) && LengthSim(m, r) && Exec(l, m, i).Some?
    ensures RefExec(l, r, i).Some? && LengthSim(Exec(l, m, i).value, RefExec(l, r, i).value)
  {
    match i
    case Emit(kind, data) => AddTokenMatches(l, m.b, kind, data);
    case EmitStatic(kind) => AddTokenMatches(l, m.b, kind, []); StaticTokenIsToken(l, m.b, kind);
    case Start(_) =>
    case Close => CloseMatchesLengths(l, m, r);
    case Take =>
    case WrapAt(_, _) =>
    case Revert(_) =>
  }

  /** With no hypothesis on the hash at all: in every run each child of the builder has the length
      of the reference builder's child, modulo 2^32. */
  lemma {:induction false} RunMatchesLengths(l: Language, m: Machine, r: RefState, prog: seq<Instr>)
    requires ValidState(l, m.b) && LengthSim(m, r) && Run(l, m, prog).Some?
    ensures RefRun(l, r, prog).Some? && LengthSim(Run(l, m, prog).value, RefRun(l, r, prog).value)
    decreases prog
  {
    if prog != [] {
      ExecMatchesLengths(l, m, r, prog[0]);
      ExecKeepsValid(l, m, prog[0]);
      RunMatchesLengths(l, Exec(l, m, prog[0]).value, RefExec(l, r, prog[0]).value, prog[1..]);
    }
  }

  /** Collisions or not, stale checkpoints or not, and whatever was in the cache before: a finished root
      is as long as the reference builder's one child, modulo 2^32. */
  lemma FinishedLengthIsReferenceLength(l: Language, cache: Cache, prog: seq<Instr>)
    requires ValidCache(l, cache)
    requires Run(l, Machine(NewState(cache), []), prog).Some?
    requires Finish(Run(l, Machine(NewState(cache), []), prog).value.b).Some?
    ensures RefRun(l, EMPTY_REF, prog).Some? && |RefRun(l, EMPTY_REF, prog).value.children| == 1
    ensures var root := Finish(Run(l, Machine(NewState(cache), []), prog).value.b).value;
            var ts := RefRun(l, EMPTY_REF, prog).value.children;
      TextLen(root) == Wrap(|TextAll(LeavesOfAll(ts))|)
  {
    var m := Machine(NewState(cache), []);
    RunMatchesLengths(l, m, EMPTY_REF, prog);
    var ts := RefRun(l, EMPTY_REF, prog).value.children;
    assert ts == [ts[0]];
    LeavesOfOne(ts[0]);
    TextIsLeafText(ts[0]);
  }

  /** Collisions or not: a finished root covers exactly the bytes of the tokens pushed and not reverted,
      modulo 2^32, in every run that reverts to live checkpoints only. */
  lemma FinishedLengthIsSurvivingBytes(l: Language, cache: Cache, prog: seq<Instr>)
    requires ValidCache(l, cache) && AllRevertsLive(l, EMPTY_LEDGER, prog)
    requires Run(l, Machine(NewState(cache), []), prog).Some?
    requires Finish(Run(l, Machine(NewState(cache), []), prog).value.b).Some?
    ensures var root := Finish(Run(l, Machine(NewState(cache), []), prog).value.b).value;
      TextLen(root) == Wrap(|TextAll(Survivors(l, prog))|)
  {
    FinishedLengthIsReferenceLength(l, cache, prog);
    RefRunYieldsSurvivors(l, EMPTY_REF, EMPTY_LEDGER, prog);
  }

  // ----- trees, when no two heads collide

  ghost predicate TreeSim(l: Language, m: Machine, r: RefState) {
    && m.b.parents == r.parents
    && m.cps == r.cps
    && AbsAll(l, m.b.cache.interner.values, m.b.children) == r.children
  }

  /** The children the next `finish_node` takes. */
  function Drained(s: State): seq<Element>
    requires s.parents != [] && s.parents[|s.parents| - 1].firstChild <= |s.children|
  {
    s.children[s.parents[|s.parents| - 1].firstChild..]
  }

  /** The cache would not answer the next `finish_node` with a node that has other children. */
  predicate NoCollision(l: Language, s: State)
    requires s.parents != [] && s.parents[|s.parents| - 1].firstChild <= |s.children|
  {
    var head := HeadOf(l.hasher, s.parents[|s.parents| - 1].kind, Drained(s));
    |Drained(s)| <= CHILDREN_CACHE_THRESHOLD && head in s.cache.nodes ==> s.cache.nodes[head].children == Drained(s)
  }

  lemma AbsAllSlices(l: Language, values: seq<bytes>, cs: seq<Element>, n: nat)
    requires n <= |cs|
    ensures AbsAll(l, values, cs)[..n] == AbsAll(l, values, cs[..n])
    ensures AbsAll(l, values, cs)[n..] == AbsAll(l, values, cs[n..])
  {
  }

  lemma AbsAllAppend(l: Language, values: seq<bytes>, cs: seq<Element>, e: Element)
    ensures AbsAll(l, values, cs + [e]) == AbsAll(l, values, cs) + [Abs(l, values, e)]
  {
  }

  /** One `finish_node` stays in step with the reference builder if and only if it does not meet a
      collision. */
  lemma CloseFaithfulIffNoCollision(l: Language, m: Machine, r: RefState)
    requires ValidState(l, m.b) && TreeSim(l, m, r) && m.b.parents != []
    ensures Exec(l, m, Close).Some? && RefExec(l, r, Close).Some?
    ensures TreeSim(l, Exec(l, m, Close).value, RefExec(l, r, Close).value) <==> NoCollision(l, m.b)
  {
    var values := m.b.cache.interner.values;
    var p := m.b.parents[|m.b.parents| - 1];
    var cs := Drained(m.b);
    var (node, cache) := CacheNode(l.hasher, m.b.cache, p.kind, cs);
    CacheNodeKeepsHeads(l, m.b.cache, p.kind, cs);
    AbsAllSlices(l, values, m.b.children, p.firstChild);
    AbsAllAppend(l, values, m.b.children[..p.firstChild], node);
    assert |AbsAll(l, values, m.b.children)| == |m.b.children|;
    var ts := r.children[..p.firstChild];
    assert ts + [Abs(l, values, node)] == ts + [Branch(p.kind, AbsAll(l, values, cs))]
      <==> Abs(l, values, node) == Branch(p.kind, AbsAll(l, values, cs)) by {
      assert (ts + [Abs(l, values, node)])[|ts|] == Abs(l, values, node);
    }
    if AbsAll(l, values, node.children) == AbsAll(l, values, cs) {
      GoodChildren(l, values, node);
      AbsAllInjective(l, m.b.cache.interner, node.children, cs);
    }
  }

  lemma ExecMatchesTrees(l: Language, m: Machine, r: RefState, i: Instr)
    requires ValidState(l, m.b) && TreeSim(l, m, r) && Exec(l, m, i).Some?
    requires i.Close? ==> NoCollision(l, m.b)
    ensures RefExec(l, r, i).Some? && TreeSim(l, Exec(l, m, i).value, RefExec(l, r, i).value)
  {
    match i
    case Emit(kind, data) => PushMatchesTrees(l, m, r, kind, data);
    case EmitStatic(kind) => PushMatchesTrees(l, m, r, kind, []); StaticTokenIsToken(l, m.b, kind);
    case Start(_) =>
    case Close => CloseFaithfulIffNoCollision(l, m, r);
    case Take =>
    case WrapAt(_, _) =>
    case Revert(slot) => AbsAllSlices(l, m.b.cache.interner.values, m.b.children, m.cps[slot].childIdx);
  }

  lemma PushMatchesTrees(l: Language, m: Machine, r: RefState, kind: u32, data: bytes)
    requires ValidState(l, m.b) && TreeSim(l, m, r) && AddToken(l, m.b, kind, data).Some?
    ensures var s := AddToken(l, m.b, kind, data).value;
      TreeSim(l, m.(b := s), r.(children := r.children + [Leaf(kind, TextFor(l, kind, data))]))
  {
    AddTokenMatches(l, m.b, kind, data);
    var s := AddToken(l, m.b, kind, data).value;
    var e :| s.children == m.b.children + [e]
          && Abs(l, s.cache.interner.values, e) == Leaf(kind, TextFor(l, kind, data));
    AbsAllGrows(l, m.b.cache.interner.values, s.cache.interner.values, m.b.children);
    AbsAllAppend(l, s.cache.interner.values, m.b.children, e);
  }
}

/** What the child hash depends on, and when the cache is faithful for that reason. */
module Hashing {
  import opened Base
  import opened Interning
  import opened Green
  import opened BuilderSpec
  import opened Programs
  import opened Reference
  import opened Refinement
  import opened Sharing

  /** The hasher merges no two streams of writes before it is finished. */
  ghost predicate Separates(h: Hasher) {
    && (forall s, d, s', d' :: h.write(s, d) == h.write(s', d') ==> s == s' && d == d')
    && (forall s, d :: h.write(s, d) != h.init)
  }

  /** Two elements that must hash alike: tokens of equal kind, text key and length, or nodes of equal
      kind, length and child hash. */
  predicate AlikeToHash(a: Element, b: Element) {
    match (a, b)
    case (Token(t), Token(u)) => t.kind == u.kind && t.key == u.key && t.len == u.len
    case (Node(g, _), Node(h, _)) => g.kind == h.kind && g.textLen == h.textLen && g.childHash == h.childHash
    case _ => false
  }

  predicate AllAlikeToHash(cs: seq<Element>, ds: seq<Element>) {
    |cs| == |ds| && forall i | 0 <= i < |cs| :: AlikeToHash(cs[i], ds[i])
  }

  /** Whatever the hasher, it is fed nothing else. */
  lemma {:induction false} AlikeHashAlike(h: Hasher, cs: seq<Element>, ds: seq<Element>)
    requires AllAlikeToHash(cs, ds)
    ensures HashState(h, cs) == HashState(h, ds)
    decreases |cs|
  {
    if cs != [] {
      var n := |cs| - 1;
      AlikeHashAlike(h, cs[..n], ds[..n]);
      assert AlikeToHash(cs[n], ds[n]);
    }
  }

  /** A hasher that merges no streams is fed all of that: kinds, text keys, lengths and heads, one child
      after the other. */
  lemma {:induction false} HashSeesTheChildren(h: Hasher, cs: seq<Element>, ds: seq<Element>)
    requires Separates(h)
    ensures HashState(h, cs) == HashState(h, ds) <==> AllAlikeToHash(cs, ds)
    decreases |cs|
  {
    if AllAlikeToHash(cs, ds) {
      AlikeHashAlike(h, cs, ds);
    }
    if cs != [] && ds != [] && HashState(h, cs) == HashState(h, ds) {
      HashSeesTheChildren(h, cs[..|cs| - 1], ds[..|ds| - 1]);
    }
  }

  // ----- there are such hashers

  /** A digest as a number below `RADIX`. */
  function Code(d: Digest): nat {
    match d
    case NodeDigest(head) => 2 * ((head.kind * TWO32 + head.textLen) * TWO32 + head.childHash)
    case TokenDigest(t) => 2 * ((t.kind * TWO32 + KeyCode(t.key)) * TWO32 + t.len) + 1
  }

  function KeyCode(key: Option<TokenKey>): nat {
    match key
    case None => 0
    case Some(k) => k
  }

  const RADIX: nat := 2 * TWO32 * TWO32 * TWO32

  lemma CodeIsInjective(d: Digest, e: Digest)
    ensures Code(d) < RADIX
    ensures Code(d) == Code(e) ==> d == e
  {
  }

  const WRITE_ALL := Hasher(0, (s: nat, d: Digest) => s * RADIX + Code(d) + 1, (s: nat) => s)

  lemma WriteAllSeparates()
    ensures Separates(WRITE_ALL)
  {
    forall s: nat, d, s': nat, d' | WRITE_ALL.write(s, d) == WRITE_ALL.write(s', d') ensures s == s' && d == d' {
      CodeIsInjective(d, d');
      CodeIsInjective(d', d);
    }
  }

  // ----- distinct heads, from the hasher alone

  /** All nodes of a tree. */
  function NodesIn(e: Element): set<GreenNode> {
    match e
    case Token(_) => {}
    case Node(_, cs) => {e} + set c, n | c in cs && n in NodesIn(c) :: n
  }

  function NodesInAll(nodes: set<GreenNode>): set<GreenNode> {
    set a, n | a in nodes && n in NodesIn(a) :: n
  }

  ghost predicate Closed(nodes: set<GreenNode>) {
    forall a, c | a in nodes && c in a.children && c.Node? :: c in nodes
  }

  lemma {:induction false} NodesInClosed(h: Hasher, e: Element)
    requires WellHeaded(h, e)
    ensures Closed(NodesIn(e)) && (e.Node? ==> e in NodesIn(e))
    ensures forall n | n in NodesIn(e) :: WellHeaded(h, n)
    decreases e
  {
    if e.Node? {
      forall c | c in e.children ensures Closed(NodesIn(c)) && (c.Node? ==> c in NodesIn(c)) {
        NodesInClosed(h, c);
      }
      ClosedAround(e);
      forall n | n in NodesIn(e) ensures WellHeaded(h, n) {
        if n != e {
          var c :| c in e.children && n in NodesIn(c);
          NodesInClosed(h, c);
        }
      }
    }
  }

  lemma ClosedAround(e: Element)
    requires e.Node? && forall c | c in e.children :: Closed(NodesIn(c)) && (c.Node? ==> c in NodesIn(c))
    ensures Closed(NodesIn(e)) && e in NodesIn(e)
  {
    forall a, d | a in NodesIn(e) && d in a.children && d.Node? ensures d in NodesIn(e) {
      if a == e {
        assert d in NodesIn(d);
      } else {
        var c :| c in e.children && a in NodesIn(c);
        assert d in NodesIn(c);
      }
    }
  }

  lemma NodesInAllClosed(h: Hasher, nodes: set<GreenNode>)
    requires forall a | a in nodes :: WellHeaded(h, a)
    ensures Closed(NodesInAll(nodes)) && nodes <= NodesInAll(nodes)
    ensures forall n | n in NodesInAll(nodes) :: WellHeaded(h, n)
  {
    forall a | a in nodes ensures Closed(NodesIn(a)) && a in NodesIn(a) {
      NodesInClosed(h, a);
    }
    forall n | n in NodesInAll(nodes) ensures WellHeaded(h, n) {
      var a :| a in nodes && n in NodesIn(a);
      NodesInClosed(h, a);
    }
  }

  /** The hash of a list of children, cut to 32 bits. */
  function Finished(h: Hasher, cs: seq<Element>): u32 {
    Wrap(h.finish(HashState(h, cs)))
  }

  /** Cutting the hash to 32 bits makes no two of these nodes collide, among those of equal kind and length. */
  predicate FinishSeparates(h: Hasher, nodes: set<GreenNode>) {
    forall a, b | a in nodes && b in nodes ::
      a.head.kind == b.head.kind && SumLen(a.children) == SumLen(b.children)
      && Finished(h, a.children) == Finished(h, b.children)
      ==> HashState(h, a.children) == HashState(h, b.children)
  }

  lemma {:induction false} EqualHeadsEqualNodes(h: Hasher, nodes: set<GreenNode>, a: GreenNode, b: GreenNode)
    requires Separates(h) && Closed(nodes) && FinishSeparates(h, nodes)
    requires forall n | n in nodes :: WellHeaded(h, n)
    requires a in nodes && b in nodes && a.head == b.head
    ensures a == b
    decreases a
  {
    HashSeesTheChildren(h, a.children, b.children);
    forall i | 0 <= i < |a.children| ensures a.children[i] == b.children[i] {
      var c, d := a.children[i], b.children[i];
      assert AlikeToHash(c, d) && c in a.children && d in b.children;
      if c.Node? {
        EqualHeadsEqualNodes(h, nodes, c, d);
      }
    }
    assert a.children == b.children;
  }

  /** Under a hasher that merges no streams, heads of nodes are distinct exactly if cutting the hash to 32
      bits separates their lists of children. */
  lemma HeadsDistinctIffFinishSeparates(h: Hasher, nodes: set<GreenNode>)
    requires Separates(h) && Closed(nodes) && forall n | n in nodes :: WellHeaded(h, n)
    ensures HeadsDistinct(nodes) <==> FinishSeparates(h, nodes)
  {
    if FinishSeparates(h, nodes) {
      forall a, b | a in nodes && b in nodes && a.head == b.head ensures a == b {
        EqualHeadsEqualNodes(h, nodes, a, b);
      }
    }
    if HeadsDistinct(nodes) {
      forall a, b | a in nodes && b in nodes && a.head.kind == b.head.kind && SumLen(a.children) == SumLen(b.children)
                    && Finished(h, a.children) == Finished(h, b.children)
        ensures HashState(h, a.children) == HashState(h, b.children) {
        assert WellHeaded(h, a) && WellHeaded(h, b);
        assert a.head == b.head;
      }
    }
  }

  // ----- whole runs

  lemma {:induction false} RequestedAreHeaded(l: Language, m: Machine, prog: seq<Instr>)
    requires ValidState(l, m.b)
    ensures forall a | a in Requested(l, m, prog) :: WellHeaded(l.hasher, a)
    decreases prog
  {
    if prog != [] && Exec(l, m, prog[0]).Some? {
      ExecKeepsValid(l, m, prog[0]);
      RequestedAreHeaded(l, Exec(l, m, prog[0]).value, prog[1..]);
      if prog[0].Close? {
        assert AllHeaded(l.hasher, Drained(m.b)) by {
          assert forall c | c in Drained(m.b) :: c in m.b.children;
        }
      }
    }
  }

  /** The nodes a run deals with: those cached before it, those it asks the cache for, and all below them. */
  function Involved(l: Language, m: Machine, prog: seq<Instr>): set<GreenNode> {
    NodesInAll(m.b.cache.nodes.Values + Requested(l, m, prog))
  }

  /** Over whole runs, from the hasher alone: if it merges no streams and its 32 bits separate the lists of
      children involved, the builder holds the reference builder's trees throughout. */
  lemma RunFaithfulIfFinishSeparates(l: Language, m: Machine, r: RefState, prog: seq<Instr>)
    requires ValidState(l, m.b) && TreeSim(l, m, r) && Run(l, m, prog).Some?
    requires Separates(l.hasher) && FinishSeparates(l.hasher, Involved(l, m, prog))
    ensures RefRun(l, r, prog).Some? && TreeSim(l, Run(l, m, prog).value, RefRun(l, r, prog).value)
  {
    RequestedAreHeaded(l, m, prog);
    var asked := m.b.cache.nodes.Values + Requested(l, m, prog);
    forall a | a in m.b.cache.nodes.Values ensures WellHeaded(l.hasher, a) {
      var head :| head in m.b.cache.nodes && m.b.cache.nodes[head] == a;
      assert Good(l, m.b.cache.interner.values, a);
    }
    NodesInAllClosed(l.hasher, asked);
    HeadsDistinctIffFinishSeparates(l.hasher, NodesInAll(asked));
    RunMatchesTrees(l, m, r, prog, NodesInAll(asked));
  }

  // ----- two nodes around different texts

  /** Two nodes of one kind around one token each, one after the other. */
  function TwoTexts(outer: u32, inner: u32, first: bytes, second: bytes): seq<Instr> {
    Wrapped(outer, inner, first) + Wrapped(outer, inner, second)
  }

  /** Whatever the hasher: both texts are kept exactly if the heads differ. */
  lemma BothKeptIffHeadsDiffer(l: Language, m: Machine, outer: u32, inner: u32, first: bytes, second: bytes)
    requires m.b == NewState(EMPTY_CACHE) && first != second
    requires l.staticData(inner) == None && l.valid(first) && l.valid(second)
    ensures var run := Run(l, m, TwoTexts(outer, inner, first, second));
      && run.Some?
      && (AbsAll(l, run.value.b.cache.interner.values, run.value.b.children)
            == [Branch(outer, [Leaf(inner, first)]), Branch(outer, [Leaf(inner, second)])]
          <==> OneTokenHead(l, outer, inner, 1, first) != OneTokenHead(l, outer, inner, 2, second))
  {
    if OneTokenHead(l, outer, inner, 1, first) == OneTokenHead(l, outer, inner, 2, second) {
      CollisionLosesText(l, m, outer, inner, first, second);
      assert Branch(outer, [Leaf(inner, first)]).children[0] != Branch(outer, [Leaf(inner, second)]).children[0];
    } else {
      DifferentHeadsKeepBoth(l, m, outer, inner, first, second);
    }
  }

  lemma DifferentHeadsKeepBoth(l: Language, m: Machine, outer: u32, inner: u32, first: bytes, second: bytes)
    requires m.b == NewState(EMPTY_CACHE) && first != second
    requires l.staticData(inner) == None && l.valid(first) && l.valid(second)
    requires OneTokenHead(l, outer, inner, 1, first) != OneTokenHead(l, outer, inner, 2, second)
    ensures var run := Run(l, m, TwoTexts(outer, inner, first, second));
      && run.Some?
      && AbsAll(l, run.value.b.cache.interner.values, run.value.b.children)
           == [Branch(outer, [Leaf(inner, first)]), Branch(outer, [Leaf(inner, second)])]
  {
    var one, two := Wrapped(outer, inner, first), Wrapped(outer, inner, second);
    var a := Node(OneTokenHead(l, outer, inner, 1, first), [Token(GreenToken(inner, Some(1), Wrap(|first|)))]);
    var b := Node(OneTokenHead(l, outer, inner, 2, second), [Token(GreenToken(inner, Some(2), Wrap(|second|)))]);
    FirstIsBuilt(l, m, outer, inner, first, a);
    RunConcat(l, m, one, two);
    SecondIsBuilt(l, Run(l, m, one).value, outer, inner, first, second, a);
    TwoDifferentTrees(l, a, b, outer, inner, first, second);
  }

  lemma FirstIsBuilt(l: Language, m: Machine, outer: u32, inner: u32, first: bytes, a: GreenNode)
    requires m.b == NewState(EMPTY_CACHE) && l.staticData(inner) == None && l.valid(first)
    requires a == Node(OneTokenHead(l, outer, inner, 1, first), [Token(GreenToken(inner, Some(1), Wrap(|first|)))])
    ensures var run := Run(l, m, Wrapped(outer, inner, first));
      && run.Some? && ValidState(l, run.value.b) && run.value.b.parents == [] && run.value.b.children == [a]
      && run.value.b.cache.interner == Interner(map[first := 1], [first])
      && run.value.b.cache.nodes.Keys == {OneTokenHead(l, outer, inner, 1, first)}
  {
    assert ValidState(l, m.b);
    OneTokenNode(l, m, outer, inner, first);
    RunKeepsValid(l, m, Wrapped(outer, inner, first));
    assert [] + [a] == [a] && [] + [first] == [first];
  }

  lemma SecondIsBuilt(l: Language, m: Machine, outer: u32, inner: u32, first: bytes, second: bytes, a: GreenNode)
    requires m.b.parents == [] && l.staticData(inner) == None && l.valid(second) && ValidState(l, m.b)
    requires m.b.cache.interner.values == [first] && second !in m.b.cache.interner.keys && m.b.children == [a]
    requires OneTokenHead(l, outer, inner, 2, second) !in m.b.cache.nodes
    ensures var run := Run(l, m, Wrapped(outer, inner, second));
            var b := Node(OneTokenHead(l, outer, inner, 2, second), [Token(GreenToken(inner, Some(2), Wrap(|second|)))]);
      run.Some? && run.value.b.cache.interner.values == [first] + [second] && run.value.b.children == [a] + [b]
  {
    OneTokenNode(l, m, outer, inner, second);
  }

  lemma TwoDifferentTrees(l: Language, a: GreenNode, b: GreenNode, outer: u32, inner: u32, first: bytes, second: bytes)
    requires l.staticData(inner) == None && a.head.kind == outer && b.head.kind == outer
    requires a.children == [Token(GreenToken(inner, Some(1), Wrap(|first|)))]
    requires b.children == [Token(GreenToken(inner, Some(2), Wrap(|second|)))]
    ensures AbsAll(l, [first] + [second], [a] + [b]) == [Branch(outer, [Leaf(inner, first)]), Branch(outer, [Leaf(inner, second)])]
  {
    var values := [first] + [second];
    assert AbsAll(l, values, a.children) == [Leaf(inner, first)] && AbsAll(l, values, b.children) == [Leaf(inner, second)];
    assert AbsAll(l, values, [a] + [b]) == [Abs(l, values, a), Abs(l, values, b)];
  }

  /** A hasher that merges no streams sees the texts' different keys; so only cutting the hash to 32 bits
      can make the second text come back as the first. */
  lemma BothTextsKept(l: Language, m: Machine, outer: u32, inner: u32, first: bytes, second: bytes)
    requires m.b == NewState(EMPTY_CACHE) && first != second && Separates(l.hasher)
    requires l.staticData(inner) == None && l.valid(first) && l.valid(second)
    requires var one, two := [Token(GreenToken(inner, Some(1), Wrap(|first|)))], [Token(GreenToken(inner, Some(2), Wrap(|second|)))];
      HashState(l.hasher, one) != HashState(l.hasher, two) ==> Finished(l.hasher, one) != Finished(l.hasher, two)
    ensures var run := Run(l, m, TwoTexts(outer, inner, first, second));
      && run.Some?
      && AbsAll(l, run.value.b.cache.interner.values, run.value.b.children)
           == [Branch(outer, [Leaf(inner, first)]), Branch(outer, [Leaf(inner, second)])]
  {
    var one, two := [Token(GreenToken(inner, Some(1), Wrap(|first|)))], [Token(GreenToken(inner, Some(2), Wrap(|second|)))];
    HashSeesTheChildren(l.hasher, one, two);
    assert !AlikeToHash(one[0], two[0]);
    BothKeptIffHeadsDiffer(l, m, outer, inner, first, second);
  }

  // ----- where the cache stops

  /** Only nodes of up to three children can collide: finishing a node of four or more always stays in
      step, and finishing a smaller one does unless its head is cached with other children. */
  lemma OnlySmallNodesCollide(l: Language, m: Machine, r: RefState)
    requires ValidState(l, m.b) && TreeSim(l, m, r) && m.b.parents != []
    ensures var cs := Drained(m.b);
            var head := HeadOf(l.hasher, m.b.parents[|m.b.parents| - 1].kind, cs);
      && Exec(l, m, Close).Some? && RefExec(l, r, Close).Some?
      && (TreeSim(l, Exec(l, m, Close).value, RefExec(l, r, Close).value) <==>
            |cs| >= 4 || head !in m.b.cache.nodes || m.b.cache.nodes[head].children == cs)
  {
    CloseFaithfulIffNoCollision(l, m, r);
  }

  /** A node of up to three children whose head is cached comes back as the cached node, and otherwise is
      the one that later nodes with its head come back as; a larger one is never looked up and never stored. */
  lemma CacheStopsAfterThree(l: Language, s: State)
    requires s.parents != [] && s.parents[|s.parents| - 1].firstChild <= |s.children|
    ensures var p := s.parents[|s.parents| - 1];
            var cs := Drained(s);
            var head := HeadOf(l.hasher, p.kind, cs);
            var own := Node(head, cs);
      && FinishNode(l, s).Some?
      && var t := FinishNode(l, s).value;
      && t.children == s.children[..p.firstChild] + [if |cs| <= 3 && head in s.cache.nodes then s.cache.nodes[head] else own]
      && (|cs| <= 3 && head !in s.cache.nodes ==> t.cache.nodes == s.cache.nodes[head := own])
      && (|cs| >= 4 || head in s.cache.nodes ==> t.cache == s.cache)
  {
  }
}

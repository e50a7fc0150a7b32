/** The stackless preorder walk: first child, next sibling, parent, until back at the start. */
module Preorder {
  import opened Base
  import opened Green
  import opened Red

  datatype Walk = Enter(at: Handle) | Leave(at: Handle)

  /** What `iter::successors` does next; `Stuck` is an `unwrap` of a missing parent. */
  datatype Next = To(pos: Walk) | Done | Stuck

  function FirstOf(r: Handle, tokens: bool): Option<Handle> {
    if tokens then FirstChildOrToken(r) else FirstChild(r)
  }

  function AfterOf(r: Handle, tokens: bool): Option<Handle> {
    if tokens then NextSiblingOrToken(r) else NextSibling(r)
  }

  /** `preorder_with_tokens` (`tokens`) and `preorder` (`!tokens`), started at `me`. */
  function Step(me: Handle, pos: Walk, tokens: bool): Next {
    match pos
    case Enter(r) =>
      (match FirstOf(r, tokens)
       case Some(child) => To(Enter(child))
       case None => To(Leave(r)))
    case Leave(r) =>
      if r == me then Done else
      match AfterOf(r, tokens)
      case Some(sibling) => To(Enter(sibling))
      case None => if r.Child? then To(Leave(r.parent)) else Stuck
  }

  // ----- the recursive word

  function Word(r: Handle, tokens: bool): seq<Walk>
    decreases GreenOf(r), 1, 0
  {
    [Enter(r)] + Forest(r, 0, tokens) + [Leave(r)]
  }

  function Forest(r: Handle, i: nat, tokens: bool): seq<Walk>
    requires i <= |Kids(r)|
    decreases GreenOf(r), 0, |Kids(r)| - i
  {
    if i == |Kids(r)| then []
    else if tokens || Kids(r)[i].Node? then Word(ChildAt(r, i), tokens) + Forest(r, i + 1, tokens)
    else Forest(r, i + 1, tokens)
  }

  /** The first child from `i` on that the walk visits. */
  function Visited(r: Handle, i: nat, tokens: bool): Option<Handle>
    requires i <= |Kids(r)|
    decreases |Kids(r)| - i
  {
    if i == |Kids(r)| then None
    else if tokens || Kids(r)[i].Node? then Some(ChildAt(r, i))
    else Visited(r, i + 1, tokens)
  }

  lemma {:induction false} NodeFromVisits(r: Handle, i: nat)
    requires i <= |Kids(r)|
    ensures NodeFrom(r, i, StartOf(r) + PrefixLen(Kids(r), i)) == Visited(r, i, false)
    decreases |Kids(r)| - i
  {
    if i < |Kids(r)| {
      NodeFromVisits(r, i + 1);
    }
  }

  lemma RoutesVisit(r: Handle, i: nat, tokens: bool)
    requires i <= |Kids(r)|
    ensures FirstOf(r, tokens) == Visited(r, 0, tokens)
    ensures i < |Kids(r)| ==> AfterOf(ChildAt(r, i), tokens) == Visited(r, i + 1, tokens)
  {
    NodeFromVisits(r, 0);
    if i < |Kids(r)| {
      NodeFromVisits(r, i + 1);
      SiblingRoutes(r, i);
    }
  }

  /** Each event of `w` is followed by the next one. */
  ghost predicate Chained(me: Handle, w: seq<Walk>, tokens: bool) {
    forall i | 0 <= i < |w| - 1 :: Step(me, w[i], tokens) == To(w[i + 1])
  }

  lemma ChainedConcat(me: Handle, v: seq<Walk>, w: seq<Walk>, tokens: bool)
    requires Chained(me, v, tokens) && Chained(me, w, tokens)
    requires v != [] && w != [] && Step(me, v[|v| - 1], tokens) == To(w[0])
    ensures Chained(me, v + w, tokens)
  {
  }

  lemma {:induction false} WordIsChained(me: Handle, r: Handle, tokens: bool)
    requires Within(me, r)
    ensures Chained(me, Word(r, tokens), tokens)
    decreases GreenOf(r), 1, 0
  {
    ForestIsChained(me, r, 0, tokens);
    RoutesVisit(r, 0, tokens);
    ChainedConcat(me, [Enter(r)], Forest(r, 0, tokens) + [Leave(r)], tokens);
    assert Word(r, tokens) == [Enter(r)] + (Forest(r, 0, tokens) + [Leave(r)]);
  }

  lemma {:induction false} ForestIsChained(me: Handle, r: Handle, i: nat, tokens: bool)
    requires Within(me, r) && i <= |Kids(r)|
    ensures Chained(me, Forest(r, i, tokens) + [Leave(r)], tokens)
    ensures (Forest(r, i, tokens) + [Leave(r)])[0] ==
              match Visited(r, i, tokens) case Some(c) => Enter(c) case None => Leave(r)
    decreases GreenOf(r), 0, |Kids(r)| - i
  {
    if i < |Kids(r)| {
      ForestIsChained(me, r, i + 1, tokens);
      if tokens || Kids(r)[i].Node? {
        var c := ChildAt(r, i);
        var w, rest := Word(c, tokens), Forest(r, i + 1, tokens) + [Leave(r)];
        WordIsChained(me, c, tokens);
        WithinDepth(me, r);
        RoutesVisit(r, i, tokens);
        assert w[|w| - 1] == Leave(c) && c != me;
        ChainedConcat(me, w, rest, tokens);
        assert Forest(r, i, tokens) + [Leave(r)] == w + rest;
      }
    }
  }

  /** The walk from any element is exactly its recursive Enter/Leave word: it begins with entering
      the element, every event leads to the next, and after leaving the element it is done. */
  lemma WalkIsTheWord(me: Handle, tokens: bool)
    ensures var w := Word(me, tokens);
      && w[0] == Enter(me)
      && Chained(me, w, tokens)
      && w[|w| - 1] == Leave(me) && Step(me, w[|w| - 1], tokens) == Done
  {
    WordIsChained(me, me, tokens);
  }

  /** The `unwrap` of a missing parent fails exactly on leaving a root at which the walk did not start, so
      never inside the walk. */
  lemma {:induction false} NeverStuckInside(me: Handle, pos: Walk, tokens: bool)
    ensures Step(me, pos, tokens).Stuck? <==> pos.Leave? && pos.at.Root? && pos.at != me
    ensures Within(me, pos.at) ==> !Step(me, pos, tokens).Stuck?
  {
  }

  // ----- leaving out the tokens

  function OnlyNodes(w: seq<Walk>): seq<Walk> {
    if w == [] then []
    else OnlyNodes(w[..|w| - 1]) + if IsNode(w[|w| - 1].at) then [w[|w| - 1]] else []
  }

  lemma OnlyNodesConcat(v: seq<Walk>, w: seq<Walk>)
    ensures OnlyNodes(v + w) == OnlyNodes(v) + OnlyNodes(w)
  {
    JoinedMapConcat(x => OnlyNodes(x), (x: Walk) => if IsNode(x.at) then [x] else [], v, w);
  }

  lemma OnlyNodesOne(x: Walk)
    ensures OnlyNodes([x]) == if IsNode(x.at) then [x] else []
  {
    assert [x][..0] == [];
  }

  /** `preorder` is `preorder_with_tokens` restricted to nodes. */
  lemma {:induction false} NodeWordIsRestriction(r: Handle)
    requires IsNode(r)
    ensures Word(r, false) == OnlyNodes(Word(r, true))
    decreases GreenOf(r), 1, 0
  {
    NodeForestIsRestriction(r, 0);
    OnlyNodesConcat([Enter(r)] + Forest(r, 0, true), [Leave(r)]);
    OnlyNodesConcat([Enter(r)], Forest(r, 0, true));
    OnlyNodesOne(Enter(r));
    OnlyNodesOne(Leave(r));
  }

  lemma {:induction false} NodeForestIsRestriction(r: Handle, i: nat)
    requires i <= |Kids(r)|
    ensures Forest(r, i, false) == OnlyNodes(Forest(r, i, true))
    decreases GreenOf(r), 0, |Kids(r)| - i
  {
    if i < |Kids(r)| {
      var c := ChildAt(r, i);
      NodeForestIsRestriction(r, i + 1);
      OnlyNodesConcat(Word(c, true), Forest(r, i + 1, true));
      if Kids(r)[i].Node? {
        NodeWordIsRestriction(c);
      } else {
        assert Word(c, true) == [Enter(c)] + [Leave(c)];
        OnlyNodesConcat([Enter(c)], [Leave(c)]);
        OnlyNodesOne(Enter(c));
        OnlyNodesOne(Leave(c));
      }
    }
  }

  // ----- running the walk

  /** The elements entered, with their depth below `me`. */
  function Lines(w: seq<Walk>, me: Handle): seq<(Handle, int)> {
    if w == [] then []
    else Lines(w[..|w| - 1], me) +
         if w[|w| - 1].Enter? then [(w[|w| - 1].at, Depth(w[|w| - 1].at) - Depth(me))] else []
  }

  /** The recursive debug printer: one line per element entered, indented by a counter that goes up
      on Enter and down on Leave. The counter is the element's depth, never goes negative, and the
      final assert on it holds. */
  method WriteDebug(me: Handle) returns (lines: seq<(Handle, int)>)
    ensures lines == Lines(Word(me, true), me)
    ensures forall line | line in lines :: line.1 >= 0
  {
    ghost var w := Word(me, true);
    WalkIsTheWord(me, true);
    ghost var k := 0;
    var level := 0;
    var next := To(Enter(me));
    lines := [];
    while next.To?
      invariant 0 <= k <= |w|
      invariant next == if k < |w| then To(w[k]) else Done
      invariant lines == Lines(w[..k], me) && forall line | line in lines :: line.1 >= 0
      invariant next.To? ==> Within(me, next.pos.at)
      invariant level == if next.To? then Depth(next.pos.at) - Depth(me) + (if next.pos.Leave? then 1 else 0) else 0
      decreases |w| - k
    {
      WithinDepth(me, next.pos.at);
      assert w[..k + 1][..k] == w[..k];
      match next.pos {
        case Enter(r) =>
          lines := lines + [(r, level)];
          level := level + 1;
        case Leave(r) =>
          level := level - 1;
      }
      next, k := Step(me, next.pos, true), k + 1;
    }
    assert w[..|w|] == w;
    assert level == 0;
  }
}

/** Walking from token to token, and exactly which trees that walk covers. */
module TokenWalk {
  import opened Base
  import opened Green
  import opened Red

  // ----- the steps

  function FirstToken(r: Handle): Option<Handle>
    decreases GreenOf(r)
  {
    if GreenOf(r).Token? then Some(r)
    else if Kids(r) == [] then None
    else FirstToken(Child(r, 0, StartOf(r)))
  }

  function LastToken(r: Handle): Option<Handle>
    decreases GreenOf(r)
  {
    if GreenOf(r).Token? then Some(r)
    else if Kids(r) == [] then None
    else var n := |Kids(r)| - 1; LastToken(Child(r, n, EndOf(r) - TextLen(Kids(r)[n])))
  }

  /** The next sibling of the nearest ancestor-or-self that has one. */
  function FindNext(r: Handle): Option<Handle> {
    match NextSiblingOrToken(r)
    case Some(s) => Some(s)
    case None => if r.Child? then FindNext(r.parent) else None
  }

  function FindPrev(r: Handle): Option<Handle> {
    match PrevSiblingOrToken(r)
    case Some(s) => Some(s)
    case None => if r.Child? then FindPrev(r.parent) else None
  }

  function After(r: Handle): Option<Handle> {
    match FindNext(r)
    case Some(e) => FirstToken(e)
    case None => None
  }

  function Before(r: Handle): Option<Handle> {
    match FindPrev(r)
    case Some(e) => LastToken(e)
    case None => None
  }

  function NextToken(t: Handle): Option<Handle>
    requires t.Child?
  {
    match NextSiblingOrToken(t)
    case Some(e) => FirstToken(e)
    case None => After(t.parent)
  }

  function PrevToken(t: Handle): Option<Handle>
    requires t.Child?
  {
    match PrevSiblingOrToken(t)
    case Some(e) => LastToken(e)
    case None => Before(t.parent)
  }

  // ----- the tokens below an element

  function Tokens(r: Handle): seq<Handle>
    decreases GreenOf(r), 1, 0
  {
    if GreenOf(r).Token? then [r] else TokensFrom(r, 0)
  }

  function TokensFrom(r: Handle, i: nat): seq<Handle>
    requires i <= |Kids(r)|
    decreases GreenOf(r), 0, |Kids(r)| - i
  {
    if i == |Kids(r)| then [] else Tokens(ChildAt(r, i)) + TokensFrom(r, i + 1)
  }

  /** No node below (or at) `e` is childless. */
  predicate Solid(e: Element) {
    e.Node? ==> e.children != [] && forall c | c in e.children :: Solid(c)
  }

  predicate HasToken(e: Element)
    decreases e, 1
  {
    e.Token? || AnyToken(e.children)
  }

  predicate AnyToken(cs: seq<Element>)
    decreases cs, 0
  {
    exists c | c in cs :: HasToken(c)
  }

  /** Every childless node comes after the last token. */
  predicate HollowOnlyAtEnd(e: Element)
    decreases e, 1
  {
    e.Node? ==> HollowOnlyAtEndFrom(e.children)
  }

  predicate HollowOnlyAtEndFrom(cs: seq<Element>)
    decreases cs, 0
  {
    if !AnyToken(cs) then true
    else if !AnyToken(cs[1..]) then HollowOnlyAtEnd(cs[0])
    else Solid(cs[0]) && HollowOnlyAtEndFrom(cs[1..])
  }

  /** The leftmost (rightmost) path ends in a token. */
  predicate Opens(e: Element) {
    e.Token? || (e.children != [] && Opens(e.children[0]))
  }

  predicate Closes(e: Element) {
    e.Token? || (e.children != [] && Closes(e.children[|e.children| - 1]))
  }

  ghost predicate Linked(ts: seq<Handle>) {
    && (forall t | t in ts :: t.Child?)
    && forall i {:trigger NextToken(ts[i])} | 0 <= i < |ts| - 1 :: NextToken(ts[i]) == Some(ts[i + 1])
  }

  lemma LinkedConcat(a: seq<Handle>, b: seq<Handle>)
    requires forall t | t in a + b :: t.Child?
    ensures Linked(a + b) <==> Linked(a) && Linked(b) && (a != [] && b != [] ==> NextToken(a[|a| - 1]) == Some(b[0]))
  {
    if Linked(a + b) {
      forall i | 0 <= i < |a| - 1 ensures NextToken(a[i]) == Some(a[i + 1]) {
        assert (a + b)[i] == a[i] && (a + b)[i + 1] == a[i + 1];
      }
      forall i | 0 <= i < |b| - 1 ensures NextToken(b[i]) == Some(b[i + 1]) {
        assert (a + b)[|a| + i] == b[i] && (a + b)[|a| + i + 1] == b[i + 1];
      }
      if a != [] && b != [] {
        assert (a + b)[|a| - 1] == a[|a| - 1] && (a + b)[|a|] == b[0];
      }
    }
  }

  lemma {:induction false} TokensBelow(r: Handle)
    requires r.Child? || IsNode(r)
    ensures forall t | t in Tokens(r) :: t.Child?
    ensures Tokens(r) != [] <==> HasToken(GreenOf(r))
    decreases GreenOf(r), 1, 0
  {
    if IsNode(r) {
      TokensBelowFrom(r, 0);
      assert Kids(r)[0..] == Kids(r);
    }
  }

  lemma {:induction false} TokensBelowFrom(r: Handle, i: nat)
    requires i <= |Kids(r)|
    ensures forall t | t in TokensFrom(r, i) :: t.Child?
    ensures TokensFrom(r, i) != [] <==> AnyToken(Kids(r)[i..])
    decreases GreenOf(r), 0, |Kids(r)| - i
  {
    if i < |Kids(r)| {
      TokensBelow(ChildAt(r, i));
      TokensBelowFrom(r, i + 1);
      assert Kids(r)[i..] == [Kids(r)[i]] + Kids(r)[i + 1..];
    }
  }

  /** `first_token` finds the first token if the leftmost path ends in one, and nothing otherwise. */
  lemma {:induction false} FirstTokenOpens(r: Handle)
    ensures Opens(GreenOf(r)) ==> Tokens(r) != []
    ensures FirstToken(r) == if Opens(GreenOf(r)) then Some(Tokens(r)[0]) else None
    decreases GreenOf(r)
  {
    if Kids(r) != [] {
      FirstTokenOpens(ChildAt(r, 0));
    }
  }

  lemma {:induction false} OpensOrClosesHasToken(e: Element)
    ensures Opens(e) || Closes(e) ==> HasToken(e)
    ensures Solid(e) ==> Opens(e) && Closes(e)
  {
    if e.Node? && e.children != [] {
      OpensOrClosesHasToken(e.children[0]);
      OpensOrClosesHasToken(e.children[|e.children| - 1]);
    }
  }

  lemma AfterChild(r: Handle, i: nat)
    requires i < |Kids(r)|
    ensures After(ChildAt(r, i)) == if i + 1 < |Kids(r)| then FirstToken(ChildAt(r, i + 1)) else After(r)
    ensures Before(ChildAt(r, i)) == if i > 0 then LastToken(ChildAt(r, i - 1)) else Before(r)
  {
    SiblingRoutes(r, i);
  }

  /** From the last token of an element the walk leaves it, if the rightmost path ends in that
      token, and gets stuck on a childless node otherwise. */
  lemma {:induction false} LastTokenLeaves(r: Handle)
    requires (r.Child? || IsNode(r)) && Tokens(r) != []
    ensures var t := Tokens(r)[|Tokens(r)| - 1];
      t.Child? && NextToken(t) == if Closes(GreenOf(r)) then After(r) else None
    decreases GreenOf(r), 1, 0
  {
    if IsNode(r) {
      LastTokenLeavesFrom(r, 0);
    }
  }

  lemma {:induction false} LastTokenLeavesFrom(r: Handle, i: nat)
    requires i < |Kids(r)| && TokensFrom(r, i) != []
    ensures var t := TokensFrom(r, i)[|TokensFrom(r, i)| - 1];
      t.Child? && NextToken(t) == if Closes(GreenOf(r)) then After(r) else None
    decreases GreenOf(r), 0, |Kids(r)| - i
  {
    if i + 1 < |Kids(r)| && TokensFrom(r, i + 1) != [] {
      LastTokenLeavesFrom(r, i + 1);
    } else {
      assert TokensFrom(r, i) == Tokens(ChildAt(r, i));
      LastTokenLeaves(ChildAt(r, i));
      AfterChild(r, i);
      if i + 1 < |Kids(r)| {
        HollowTail(r, i + 1);
      }
    }
  }

  lemma HollowTail(r: Handle, i: nat)
    requires i < |Kids(r)| && TokensFrom(r, i) == []
    ensures FirstToken(ChildAt(r, i)) == None && !Closes(GreenOf(r))
  {
    var n := |Kids(r)| - 1;
    TokensBelowFrom(r, i);
    assert Kids(r)[i] in Kids(r)[i..] && Kids(r)[n] in Kids(r)[i..];
    OpensOrClosesHasToken(Kids(r)[i]);
    OpensOrClosesHasToken(Kids(r)[n]);
    FirstTokenOpens(ChildAt(r, i));
  }

  lemma {:induction false} SolidIffHollowNowhere(e: Element)
    ensures Solid(e) <==> HollowOnlyAtEnd(e) && Closes(e)
    decreases e, 1
  {
    if e.Node? {
      SolidIffHollowNowhereFrom(e.children);
    }
  }

  lemma {:induction false} SolidIffHollowNowhereFrom(cs: seq<Element>)
    ensures (cs != [] && forall c | c in cs :: Solid(c)) <==>
            HollowOnlyAtEndFrom(cs) && cs != [] && Closes(cs[|cs| - 1])
    decreases cs, 0
  {
    if cs != [] {
      assert cs == [cs[0]] + cs[1..];
      SolidIffHollowNowhere(cs[0]);
      SolidIffHollowNowhereFrom(cs[1..]);
      OpensOrClosesHasToken(cs[0]);
      OpensOrClosesHasToken(cs[|cs| - 1]);
      assert |cs| > 1 ==> cs[|cs| - 1] in cs[1..];
    }
  }

  /** The tokens below an element are linked by `next_token`, from the one `first_token` finds,
      exactly when every childless node below it comes after its last token. */
  lemma {:induction false} LinkedIffHollowOnlyAtEnd(r: Handle)
    requires r.Child? || IsNode(r)
    ensures HollowOnlyAtEnd(GreenOf(r)) <==> Linked(Tokens(r)) && (Tokens(r) != [] ==> Opens(GreenOf(r)))
    decreases GreenOf(r), 1, 0
  {
    if IsNode(r) {
      LinkedIffHollowOnlyAtEndFrom(r, 0);
      assert Kids(r)[0..] == Kids(r);
    }
  }

  lemma {:induction false} LinkedIffHollowOnlyAtEndFrom(r: Handle, i: nat)
    requires i <= |Kids(r)|
    ensures HollowOnlyAtEndFrom(Kids(r)[i..]) <==>
            Linked(TokensFrom(r, i)) && (TokensFrom(r, i) != [] ==> Opens(Kids(r)[i]))
    decreases GreenOf(r), 0, |Kids(r)| - i
  {
    TokensBelowFrom(r, i);
    if i < |Kids(r)| && TokensFrom(r, i) != [] {
      var c, rest := ChildAt(r, i), TokensFrom(r, i + 1);
      var cs := Kids(r)[i..];
      assert cs[1..] == Kids(r)[i + 1..] && cs[0] == GreenOf(c);
      TokensBelow(c);
      TokensBelowFrom(r, i + 1);
      LinkedIffHollowOnlyAtEnd(c);
      OpensOrClosesHasToken(cs[0]);
      if rest == [] {
        assert HollowOnlyAtEndFrom(cs) == HollowOnlyAtEnd(cs[0]);
        assert TokensFrom(r, i) == Tokens(c);
      } else {
        assert HollowOnlyAtEndFrom(cs) == (Solid(cs[0]) && HollowOnlyAtEndFrom(cs[1..]));
        LinkedIffHollowOnlyAtEndFrom(r, i + 1);
        SolidIffHollowNowhere(cs[0]);
        if Tokens(c) != [] {
          LinkedAcrossBoundary(r, i);
        }
      }
    }
  }

  lemma LinkedAcrossBoundary(r: Handle, i: nat)
    requires i + 1 < |Kids(r)| && Tokens(ChildAt(r, i)) != [] && TokensFrom(r, i + 1) != []
    ensures Linked(TokensFrom(r, i)) <==>
            && Linked(Tokens(ChildAt(r, i))) && Linked(TokensFrom(r, i + 1))
            && Closes(Kids(r)[i]) && Opens(Kids(r)[i + 1])
  {
    TokensBelowFrom(r, i);
    LinkedConcat(Tokens(ChildAt(r, i)), TokensFrom(r, i + 1));
    BoundaryIsLinked(r, i);
  }

  /** Between two siblings the walk goes on exactly if it can leave the first and enter the second. */
  lemma BoundaryIsLinked(r: Handle, i: nat)
    requires i + 1 < |Kids(r)| && Tokens(ChildAt(r, i)) != [] && TokensFrom(r, i + 1) != []
    ensures var ts := Tokens(ChildAt(r, i));
      ts[|ts| - 1].Child? &&
      (NextToken(ts[|ts| - 1]) == Some(TokensFrom(r, i + 1)[0]) <==> Closes(Kids(r)[i]) && Opens(Kids(r)[i + 1]))
  {
    LastTokenLeaves(ChildAt(r, i));
    AfterChild(r, i);
    FirstTokenOpens(ChildAt(r, i + 1));
  }

  /** Iterating `next_token` from what `first_token` returns yields `ts` and then stops. */
  ghost predicate Yields(first: Option<Handle>, ts: seq<Handle>) {
    if ts == [] then first == None
    else first == Some(ts[0]) && Linked(ts) && ts[|ts| - 1].Child? && NextToken(ts[|ts| - 1]) == None
  }

  /** From a root, `first_token` and `next_token` visit every token once, left to right, and stop,
      if and only if no childless node precedes the last token. In particular in every tree without
      childless nodes. */
  lemma WalkCoversIffHollowOnlyAtEnd(g: GreenNode)
    ensures Yields(FirstToken(Root(g)), Tokens(Root(g))) <==> HollowOnlyAtEnd(g)
    ensures Solid(g) ==> HollowOnlyAtEnd(g)
  {
    var r := Root(g);
    LinkedIffHollowOnlyAtEnd(r);
    FirstTokenOpens(r);
    SolidIffHollowNowhere(g);
    if Tokens(r) != [] {
      LastTokenLeaves(r);
    }
  }

  // ----- single steps, in any tree

  /** `t` is at the right edge of `a`: neither it nor anything between has a right neighbour. */
  ghost predicate AtRightEdge(a: Handle, t: Handle) {
    Within(a, t) && forall b | Within(a, b) && b != a && Within(b, t) :: b.Child? && b.index + 1 >= |Kids(b.parent)|
  }

  lemma {:induction false} FindNextFromEdge(a: Handle, t: Handle)
    requires AtRightEdge(a, t)
    ensures FindNext(t) == FindNext(a)
    decreases t
  {
    if t != a {
      assert Within(a, t) && Within(t, t);
      assert Within(a, t.parent);
      assert AtRightEdge(a, t.parent) by {
        forall b | Within(a, b) && b != a && Within(b, t.parent) ensures b.Child? && b.index + 1 >= |Kids(b.parent)| {
          assert Within(b, t);
        }
      }
      FindNextFromEdge(a, t.parent);
    }
  }

  /** In any tree, with childless nodes or without: from a token at the right edge of `a`, `next_token` goes
      to the right neighbour of `a` and finds the first token there if its leftmost path ends in one, and
      nothing otherwise; at the right edge of the whole tree there is nothing. */
  lemma NextTokenExactly(a: Handle, t: Handle)
    requires Valid(t) && t.Child? && AtRightEdge(a, t)
    ensures a.Root? ==> NextToken(t) == None
    ensures a.Child? && a.index + 1 < |Kids(a.parent)| ==>
              var e := ChildAt(a.parent, a.index + 1);
              if Opens(GreenOf(e)) then Tokens(e) != [] && NextToken(t) == Some(Tokens(e)[0]) else NextToken(t) == None
  {
    FindNextFromEdge(a, t);
    assert NextToken(t) == After(t);
    WithinRange(a, t);
    AfterExactly(a);
  }

  lemma AfterExactly(a: Handle)
    requires Valid(a)
    ensures a.Root? ==> After(a) == None
    ensures a.Child? && a.index + 1 < |Kids(a.parent)| ==>
              var e := ChildAt(a.parent, a.index + 1);
              if Opens(GreenOf(e)) then Tokens(e) != [] && After(a) == Some(Tokens(e)[0]) else After(a) == None
  {
    if a.Child? && a.index + 1 < |Kids(a.parent)| {
      SiblingRoutes(a.parent, a.index);
      FirstTokenOpens(ChildAt(a.parent, a.index + 1));
    }
  }

  // ----- trees in which the walk gets stuck

  /** A tree with a token in it whose first child is empty: `first_token` finds nothing. */
  lemma FirstTokenMissesAToken(h: Head, hollow: Head, t: GreenToken)
    ensures var g := Node(h, [Node(hollow, []), Token(t)]);
      FirstToken(Root(g)) == None && Tokens(Root(g)) == [ChildAt(Root(g), 1)]
  {
    var g := Node(h, [Node(hollow, []), Token(t)]);
    var r := Root(g);
    assert TokensFrom(r, 2) == [];
    assert TokensFrom(r, 1) == [ChildAt(r, 1)];
    assert Tokens(ChildAt(r, 0)) == [] by { assert Kids(ChildAt(r, 0)) == []; }
  }

  /** Two tokens with an empty node between them: `next_token` of the first finds nothing. */
  lemma NextTokenStopsAtAnEmptyNode(h: Head, hollow: Head, t: GreenToken, u: GreenToken)
    ensures var g := Node(h, [Token(t), Node(hollow, []), Token(u)]);
      && Tokens(Root(g)) == [ChildAt(Root(g), 0), ChildAt(Root(g), 2)]
      && NextToken(Tokens(Root(g))[0]) == None
  {
    var g := Node(h, [Token(t), Node(hollow, []), Token(u)]);
    var r := Root(g);
    assert TokensFrom(r, 3) == [];
    assert TokensFrom(r, 2) == [ChildAt(r, 2)];
    assert Tokens(ChildAt(r, 1)) == [] by { assert Kids(ChildAt(r, 1)) == []; }
    assert TokensFrom(r, 1) == [ChildAt(r, 2)];
    assert Tokens(ChildAt(r, 0)) == [ChildAt(r, 0)];
    assert FirstToken(ChildAt(r, 1)) == None by { assert Kids(ChildAt(r, 1)) == []; }
  }
}

/** The token walk from right to left, and exactly which trees it covers. */
module TokenWalkBack {
  import opened Base
  import opened Green
  import opened Red
  import opened TokenWalk

  /** Every childless node comes before the first token. */
  predicate HollowOnlyAtStart(e: Element)
    decreases e, 1
  {
    e.Node? ==> HollowOnlyAtStartOf(e.children)
  }

  predicate HollowOnlyAtStartOf(cs: seq<Element>)
    decreases cs, 0
  {
    if !AnyToken(cs) then true
    else
      var front, last := cs[..|cs| - 1], cs[|cs| - 1];
      if !AnyToken(front) then HollowOnlyAtStart(last) else Solid(last) && HollowOnlyAtStartOf(front)
  }

  /** The tokens below the first `i` children. */
  function TokensUpTo(r: Handle, i: nat): seq<Handle>
    requires i <= |Kids(r)|
    decreases i
  {
    if i == 0 then [] else TokensUpTo(r, i - 1) + Tokens(ChildAt(r, i - 1))
  }

  lemma {:induction false} TokensSplit(r: Handle, i: nat)
    requires i <= |Kids(r)|
    ensures TokensFrom(r, 0) == TokensUpTo(r, i) + TokensFrom(r, i)
    decreases i
  {
    if i == 0 {
      assert [] + TokensFrom(r, 0) == TokensFrom(r, 0);
    } else {
      TokensSplit(r, i - 1);
      var a, b, c := TokensUpTo(r, i - 1), Tokens(ChildAt(r, i - 1)), TokensFrom(r, i);
      assert a + (b + c) == (a + b) + c;
    }
  }

  lemma TokensAreUpTo(r: Handle)
    requires IsNode(r)
    ensures Tokens(r) == TokensUpTo(r, |Kids(r)|)
  {
    TokensSplit(r, |Kids(r)|);
  }

  lemma {:induction false} TokensBelowUpTo(r: Handle, i: nat)
    requires i <= |Kids(r)|
    ensures forall t | t in TokensUpTo(r, i) :: t.Child?
    ensures TokensUpTo(r, i) != [] <==> AnyToken(Kids(r)[..i])
    decreases i
  {
    if i > 0 {
      TokensBelow(ChildAt(r, i - 1));
      TokensBelowUpTo(r, i - 1);
      assert Kids(r)[..i] == Kids(r)[..i - 1] + [Kids(r)[i - 1]];
    }
  }

  ghost predicate LinkedBack(ts: seq<Handle>) {
    && (forall t | t in ts :: t.Child?)
    && forall i {:trigger PrevToken(ts[i])} | 0 < i < |ts| :: PrevToken(ts[i]) == Some(ts[i - 1])
  }

  lemma LinkedBackConcat(a: seq<Handle>, b: seq<Handle>)
    requires forall t | t in a + b :: t.Child?
    ensures LinkedBack(a + b) <==>
              LinkedBack(a) && LinkedBack(b) && (a != [] && b != [] ==> PrevToken(b[0]) == Some(a[|a| - 1]))
  {
    if LinkedBack(a + b) {
      forall i | 0 < i < |a| ensures PrevToken(a[i]) == Some(a[i - 1]) {
        assert (a + b)[i] == a[i] && (a + b)[i - 1] == a[i - 1];
      }
      forall i | 0 < i < |b| ensures PrevToken(b[i]) == Some(b[i - 1]) {
        assert (a + b)[|a| + i] == b[i] && (a + b)[|a| + i - 1] == b[i - 1];
      }
      if a != [] && b != [] {
        assert (a + b)[|a|] == b[0] && (a + b)[|a| - 1] == a[|a| - 1];
      }
    }
  }

  /** `last_token` finds the last token if the rightmost path ends in one, and nothing otherwise. */
  lemma {:induction false} LastTokenCloses(r: Handle)
    requires Valid(r)
    ensures Closes(GreenOf(r)) ==> Tokens(r) != []
    ensures LastToken(r) == if Closes(GreenOf(r)) then Some(Tokens(r)[|Tokens(r)| - 1]) else None
    decreases GreenOf(r)
  {
    if Kids(r) != [] {
      var n := |Kids(r)| - 1;
      ChildIsValid(r, n);
      ChildRoutes(r);
      LastTokenCloses(ChildAt(r, n));
      TokensAreUpTo(r);
    }
  }

  /** From the first token of an element the walk leaves it to the left, if the leftmost path ends in that
      token, and gets stuck on a childless node otherwise. */
  lemma {:induction false} FirstTokenLeaves(r: Handle)
    requires Valid(r) && (r.Child? || IsNode(r)) && Tokens(r) != []
    ensures var t := Tokens(r)[0];
      t.Child? && PrevToken(t) == if Opens(GreenOf(r)) then Before(r) else None
    decreases GreenOf(r), 1, 0
  {
    if IsNode(r) {
      TokensAreUpTo(r);
      FirstTokenLeavesUpTo(r, |Kids(r)|);
    }
  }

  lemma {:induction false} FirstTokenLeavesUpTo(r: Handle, i: nat)
    requires Valid(r) && 0 < i <= |Kids(r)| && TokensUpTo(r, i) != []
    ensures var t := TokensUpTo(r, i)[0];
      t.Child? && PrevToken(t) == if Opens(GreenOf(r)) then Before(r) else None
    decreases GreenOf(r), 0, i
  {
    if TokensUpTo(r, i - 1) != [] {
      FirstTokenLeavesUpTo(r, i - 1);
    } else {
      assert TokensUpTo(r, i) == Tokens(ChildAt(r, i - 1));
      ChildIsValid(r, i - 1);
      FirstTokenLeaves(ChildAt(r, i - 1));
      AfterChild(r, i - 1);
      if i > 1 {
        HollowHead(r, i - 1);
      }
    }
  }

  lemma HollowHead(r: Handle, i: nat)
    requires Valid(r) && 0 < i <= |Kids(r)| && TokensUpTo(r, i) == []
    ensures LastToken(ChildAt(r, i - 1)) == None && !Opens(GreenOf(r))
  {
    TokensBelowUpTo(r, i);
    assert Kids(r)[i - 1] in Kids(r)[..i] && Kids(r)[0] in Kids(r)[..i];
    OpensOrClosesHasToken(Kids(r)[i - 1]);
    OpensOrClosesHasToken(Kids(r)[0]);
    ChildIsValid(r, i - 1);
    LastTokenCloses(ChildAt(r, i - 1));
  }

  lemma {:induction false} SolidIffHollowNowhere(e: Element)
    ensures Solid(e) <==> HollowOnlyAtStart(e) && Opens(e)
    decreases e, 1
  {
    if e.Node? {
      SolidIffHollowNowhereIn(e.children);
    }
  }

  lemma {:induction false} SolidIffHollowNowhereIn(cs: seq<Element>)
    ensures (cs != [] && forall c | c in cs :: Solid(c)) <==> HollowOnlyAtStartOf(cs) && cs != [] && Opens(cs[0])
    decreases cs, 0
  {
    if cs != [] {
      var n := |cs| - 1;
      SolidIffHollowNowhere(cs[n]);
      SolidIffHollowNowhereIn(cs[..n]);
      OpensOrClosesHasToken(cs[n]);
      OpensOrClosesHasToken(cs[0]);
      AllButLast(cs);
      if AnyToken(cs) {
        HollowUpTo(cs, n + 1);
        assert cs[..n + 1] == cs;
      }
    }
  }

  lemma AllButLast(cs: seq<Element>)
    requires cs != []
    ensures (forall c | c in cs :: Solid(c)) <==> Solid(cs[|cs| - 1]) && forall c | c in cs[..|cs| - 1] :: Solid(c)
    ensures |cs| > 1 ==> cs[0] in cs[..|cs| - 1]
  {
    assert cs == cs[..|cs| - 1] + [cs[|cs| - 1]];
  }

  /** The tokens below an element are linked by `prev_token`, from the one `last_token` finds, exactly when
      every childless node below it comes before its first token. */
  lemma {:induction false} LinkedBackIffHollowOnlyAtStart(r: Handle)
    requires Valid(r) && (r.Child? || IsNode(r))
    ensures HollowOnlyAtStart(GreenOf(r)) <==> LinkedBack(Tokens(r)) && (Tokens(r) != [] ==> Closes(GreenOf(r)))
    decreases GreenOf(r), 1, 0
  {
    if IsNode(r) {
      TokensAreUpTo(r);
      LinkedBackUpTo(r, |Kids(r)|);
      assert Kids(r)[..|Kids(r)|] == Kids(r);
    }
  }

  lemma HollowUpTo(cs: seq<Element>, i: nat)
    requires 0 < i <= |cs| && AnyToken(cs[..i])
    ensures HollowOnlyAtStartOf(cs[..i]) <==>
            if AnyToken(cs[..i - 1]) then Solid(cs[i - 1]) && HollowOnlyAtStartOf(cs[..i - 1]) else HollowOnlyAtStart(cs[i - 1])
  {
    assert cs[..i][..i - 1] == cs[..i - 1];
  }

  /** What `LinkedBackUpTo` says of the first `i` children. */
  ghost predicate BackUpTo(r: Handle, i: nat)
    requires i <= |Kids(r)|
  {
    HollowOnlyAtStartOf(Kids(r)[..i]) <==>
      LinkedBack(TokensUpTo(r, i)) && (TokensUpTo(r, i) != [] ==> i > 0 && Closes(Kids(r)[i - 1]))
  }

  lemma {:induction false} LinkedBackUpTo(r: Handle, i: nat)
    requires Valid(r) && i <= |Kids(r)|
    ensures BackUpTo(r, i)
    decreases GreenOf(r), 0, i
  {
    if TokensUpTo(r, i) == [] {
      NothingUpTo(r, i);
    } else {
      assert Valid(ChildAt(r, i - 1)) by { ChildIsValid(r, i - 1); }
      LinkedBackIffHollowOnlyAtStart(ChildAt(r, i - 1));
      if TokensUpTo(r, i - 1) == [] {
        BackFirst(r, i - 1);
      } else {
        LinkedBackUpTo(r, i - 1);
        SolidIffLinked(r, i - 1);
        BackNext(r, i - 1);
      }
    }
  }

  lemma NothingUpTo(r: Handle, i: nat)
    requires i <= |Kids(r)| && TokensUpTo(r, i) == []
    ensures BackUpTo(r, i)
  {
    TokensBelowUpTo(r, i);
  }

  /** Child `i` is the first with tokens in it. */
  lemma BackFirst(r: Handle, i: nat)
    requires i < |Kids(r)| && TokensUpTo(r, i) == [] && TokensUpTo(r, i + 1) != []
    requires HollowOnlyAtStart(Kids(r)[i]) <==>
             LinkedBack(Tokens(ChildAt(r, i))) && (Tokens(ChildAt(r, i)) != [] ==> Closes(Kids(r)[i]))
    ensures BackUpTo(r, i + 1)
  {
    TokensBelowUpTo(r, i);
    TokensBelowUpTo(r, i + 1);
    HollowUpTo(Kids(r), i + 1);
    assert TokensUpTo(r, i + 1) == Tokens(ChildAt(r, i));
  }

  /** There are tokens before it. */
  lemma BackNext(r: Handle, i: nat)
    requires Valid(r) && i < |Kids(r)| && TokensUpTo(r, i) != [] && BackUpTo(r, i)
    requires Solid(Kids(r)[i]) <==> LinkedBack(Tokens(ChildAt(r, i))) && Closes(Kids(r)[i]) && Opens(Kids(r)[i])
    ensures BackUpTo(r, i + 1)
  {
    assert i > 0;
    HollowSplit(r, i);
    AcrossIfTokens(r, i);
  }

  lemma HollowSplit(r: Handle, i: nat)
    requires i < |Kids(r)| && TokensUpTo(r, i) != []
    ensures HollowOnlyAtStartOf(Kids(r)[..i + 1]) <==> Solid(Kids(r)[i]) && HollowOnlyAtStartOf(Kids(r)[..i])
    ensures TokensUpTo(r, i + 1) != []
  {
    TokensBelowUpTo(r, i);
    TokensBelowUpTo(r, i + 1);
    HollowUpTo(Kids(r), i + 1);
  }

  lemma SolidIffLinked(r: Handle, i: nat)
    requires Valid(r) && i < |Kids(r)|
    requires HollowOnlyAtStart(Kids(r)[i]) <==>
             LinkedBack(Tokens(ChildAt(r, i))) && (Tokens(ChildAt(r, i)) != [] ==> Closes(Kids(r)[i]))
    ensures Solid(Kids(r)[i]) <==> LinkedBack(Tokens(ChildAt(r, i))) && Closes(Kids(r)[i]) && Opens(Kids(r)[i])
  {
    SolidIffHollowNowhere(Kids(r)[i]);
    OpensOrClosesHasToken(Kids(r)[i]);
    TokensBelow(ChildAt(r, i));
  }

  lemma AcrossIfTokens(r: Handle, i: nat)
    requires Valid(r) && 0 < i < |Kids(r)| && TokensUpTo(r, i) != []
    ensures Closes(Kids(r)[i]) || Opens(Kids(r)[i]) ==>
            (LinkedBack(TokensUpTo(r, i + 1)) <==>
               && LinkedBack(TokensUpTo(r, i)) && LinkedBack(Tokens(ChildAt(r, i)))
               && Opens(Kids(r)[i]) && Closes(Kids(r)[i - 1]))
  {
    OpensOrClosesHasToken(Kids(r)[i]);
    TokensBelow(ChildAt(r, i));
    if Closes(Kids(r)[i]) || Opens(Kids(r)[i]) {
      LinkedAcrossBoundary(r, i);
    }
  }

  lemma LinkedAcrossBoundary(r: Handle, i: nat)
    requires Valid(r) && 0 < i < |Kids(r)| && Tokens(ChildAt(r, i)) != [] && TokensUpTo(r, i) != []
    ensures LinkedBack(TokensUpTo(r, i + 1)) <==>
            && LinkedBack(TokensUpTo(r, i)) && LinkedBack(Tokens(ChildAt(r, i)))
            && Opens(Kids(r)[i]) && Closes(Kids(r)[i - 1])
  {
    TokensBelowUpTo(r, i + 1);
    LinkedBackConcat(TokensUpTo(r, i), Tokens(ChildAt(r, i)));
    BoundaryIsLinked(r, i);
  }

  /** Between two siblings the walk goes on exactly if it can leave the right one and enter the left. */
  lemma BoundaryIsLinked(r: Handle, i: nat)
    requires Valid(r) && 0 < i < |Kids(r)| && Tokens(ChildAt(r, i)) != [] && TokensUpTo(r, i) != []
    ensures var ts := TokensUpTo(r, i);
      Tokens(ChildAt(r, i))[0].Child? &&
      (PrevToken(Tokens(ChildAt(r, i))[0]) == Some(ts[|ts| - 1]) <==> Opens(Kids(r)[i]) && Closes(Kids(r)[i - 1]))
  {
    ChildIsValid(r, i);
    ChildIsValid(r, i - 1);
    FirstTokenLeaves(ChildAt(r, i));
    AfterChild(r, i);
    LastTokenCloses(ChildAt(r, i - 1));
  }

  /** Iterating `prev_token` from what `last_token` returns yields `ts` from its end and then stops. */
  ghost predicate YieldsBack(last: Option<Handle>, ts: seq<Handle>) {
    if ts == [] then last == None
    else last == Some(ts[|ts| - 1]) && LinkedBack(ts) && ts[0].Child? && PrevToken(ts[0]) == None
  }

  /** From a root, `last_token` and `prev_token` visit every token once, right to left, and stop, if and
      only if no childless node follows the first token. */
  lemma WalkBackCoversIffHollowOnlyAtStart(g: GreenNode)
    requires Exact(g)
    ensures YieldsBack(LastToken(Root(g)), Tokens(Root(g))) <==> HollowOnlyAtStart(g)
    ensures Solid(g) ==> HollowOnlyAtStart(g)
  {
    var r := Root(g);
    LinkedBackIffHollowOnlyAtStart(r);
    LastTokenCloses(r);
    SolidIffHollowNowhere(g);
    if Tokens(r) != [] {
      FirstTokenLeaves(r);
    }
  }

  // ----- single steps, in any tree

  /** `t` is at the left edge of `a`: neither it nor anything between has a left neighbour. */
  ghost predicate AtLeftEdge(a: Handle, t: Handle) {
    Within(a, t) && forall b | Within(a, b) && b != a && Within(b, t) :: b.Child? && b.index == 0
  }

  lemma {:induction false} FindPrevFromEdge(a: Handle, t: Handle)
    requires AtLeftEdge(a, t)
    ensures FindPrev(t) == FindPrev(a)
    decreases t
  {
    if t != a {
      assert Within(a, t) && Within(t, t);
      assert Within(a, t.parent);
      assert AtLeftEdge(a, t.parent) by {
        forall b | Within(a, b) && b != a && Within(b, t.parent) ensures b.Child? && b.index == 0 {
          assert Within(b, t);
        }
      }
      FindPrevFromEdge(a, t.parent);
    }
  }

  /** In any tree, with childless nodes or without: from a token at the left edge of `a`, `prev_token` goes
      to the left neighbour of `a` and finds the last token there if its rightmost path ends in one, and
      nothing otherwise; at the left edge of the whole tree there is nothing. */
  lemma PrevTokenExactly(a: Handle, t: Handle)
    requires Valid(t) && t.Child? && AtLeftEdge(a, t)
    ensures a.Root? ==> PrevToken(t) == None
    ensures a.Child? && 0 < a.index <= |Kids(a.parent)| ==>
              var e := ChildAt(a.parent, a.index - 1);
              if Closes(GreenOf(e)) then Tokens(e) != [] && PrevToken(t) == Some(Tokens(e)[|Tokens(e)| - 1])
              else PrevToken(t) == None
  {
    FindPrevFromEdge(a, t);
    assert PrevToken(t) == Before(t);
    WithinRange(a, t);
    BeforeExactly(a);
  }

  lemma BeforeExactly(a: Handle)
    requires Valid(a)
    ensures a.Root? ==> Before(a) == None
    ensures a.Child? && 0 < a.index <= |Kids(a.parent)| ==>
              var e := ChildAt(a.parent, a.index - 1);
              if Closes(GreenOf(e)) then Tokens(e) != [] && Before(a) == Some(Tokens(e)[|Tokens(e)| - 1])
              else Before(a) == None
  {
    if a.Child? && 0 < a.index <= |Kids(a.parent)| {
      var e := ChildAt(a.parent, a.index - 1);
      assert Before(a) == LastToken(e) by { SiblingRoutes(a.parent, a.index); }
      assert Valid(e) by { ChildIsValid(a.parent, a.index - 1); }
      LastTokenCloses(e);
    }
  }

  // ----- trees without childless nodes

  /** In a tree without childless nodes `prev_token` takes every token to the one before it. */
  lemma PrevTokenRetraces(r: Handle)
    requires Valid(r) && Solid(GreenOf(r)) && (r.Child? || IsNode(r))
    ensures var ts := Tokens(r);
      && ts != [] && (forall t | t in ts :: t.Child?)
      && LastToken(r) == Some(ts[|ts| - 1])
      && PrevToken(ts[0]) == Before(r)
      && forall i | 0 < i < |ts| :: PrevToken(ts[i]) == Some(ts[i - 1])
  {
    OpensOrClosesHasToken(GreenOf(r));
    LastTokenCloses(r);
    FirstTokenLeaves(r);
    SolidIffHollowNowhere(GreenOf(r));
    LinkedBackIffHollowOnlyAtStart(r);
  }

  /** In a tree without childless nodes the two steps are inverse. */
  lemma TokenStepsAreInverse(g: GreenNode, i: nat, j: nat)
    requires Exact(g) && Solid(g) && i < |Tokens(Root(g))| && j < |Tokens(Root(g))|
    ensures var s, t := Tokens(Root(g))[i], Tokens(Root(g))[j];
      && s.Child? && t.Child?
      && (i + 1 == j ==> NextToken(s) == Some(t) && PrevToken(t) == Some(s))
      && (i == 0 ==> PrevToken(s) == None)
  {
    WalkCoversIffHollowOnlyAtEnd(g);
    PrevTokenRetraces(Root(g));
  }
}

/** The tree that the S-expression parser builds is the only well-formed one over its tokens. */
module SExprUnique {
  import opened Base
  import opened Reference
  import opened SExpr

  /** Nothing, or something that begins with a closing parenthesis. */
  predicate Stops(x: seq<Tree>) {
    x != [] ==> x[0].Leaf? && x[0].kind == R_PAREN
  }

  predicate Items(ts: seq<Tree>) {
    forall t | t in ts :: Item(t)
  }

  /** Only the last of them may lack a closing parenthesis, and only if nothing follows. */
  predicate GapsLast(ts: seq<Tree>, x: seq<Tree>) {
    LateGaps(ts) && (x != [] ==> GapsAll(ts) == 0)
  }

  lemma LeavesOfFirst(ts: seq<Tree>)
    requires ts != []
    ensures LeavesOfAll(ts) == LeavesOf(ts[0]) + LeavesOfAll(ts[1..])
  {
    assert ts == [ts[0]] + ts[1..];
    LeavesOfConcat([ts[0]], ts[1..]);
    LeavesOfOne(ts[0]);
  }

  /** An item begins with a leaf, which is not a closing parenthesis. */
  lemma ItemBegins(t: Tree)
    requires Item(t)
    ensures LeavesOf(t) != [] && LeavesOf(t)[0].Leaf? && LeavesOf(t)[0].kind != R_PAREN
    ensures t.Leaf? <==> LeavesOf(t)[0].kind == WHITESPACE || LeavesOf(t)[0].kind == ERROR
    ensures t.Branch? && t.kind == ATOM <==> LeavesOf(t)[0].kind == WORD
  {
    if t.Branch? {
      LeavesOfFirst(t.children);
    }
  }

  function Inner(ts: seq<Tree>): seq<Tree>
    requires IsList(ts)
  {
    if Closed(ts) then ts[1..|ts| - 1] else ts[1..]
  }

  function Tail(ts: seq<Tree>, x: seq<Tree>): seq<Tree>
    requires IsList(ts)
  {
    (if Closed(ts) then [Leaf(R_PAREN, CLOSING)] else []) + x
  }

  lemma ListParts(ts: seq<Tree>, x: seq<Tree>)
    requires IsList(ts)
    ensures LeavesOfAll(ts) + x == [Leaf(L_PAREN, OPENING)] + (LeavesOfAll(Inner(ts)) + Tail(ts, x))
    ensures ts == [Leaf(L_PAREN, OPENING)] + Inner(ts) + Tail(ts, [])
  {
    var first, last := [Leaf(L_PAREN, OPENING)], Tail(ts, []);
    ListSplits(ts);
    var inner := LeavesOfAll(Inner(ts));
    assert last + x == Tail(ts, x);
    Associate(first + inner, last, x);
    Associate(first, inner, last + x);
  }

  lemma ListSplits(ts: seq<Tree>)
    requires IsList(ts)
    ensures ts == [Leaf(L_PAREN, OPENING)] + Inner(ts) + Tail(ts, [])
    ensures LeavesOfAll(ts) == [Leaf(L_PAREN, OPENING)] + LeavesOfAll(Inner(ts)) + Tail(ts, [])
  {
    var first, last := [Leaf(L_PAREN, OPENING)], Tail(ts, []);
    assert ts == first + Inner(ts) + last;
    LeavesOfConcat(first + Inner(ts), last);
    LeavesOfConcat(first, Inner(ts));
    LeavesOfOne(first[0]);
    LeavesOfOne(Leaf(R_PAREN, CLOSING));
    if Closed(ts) {
      assert last == [Leaf(R_PAREN, CLOSING)];
    } else {
      assert last == [];
    }
  }

  /** A list without closing parenthesis counts as a gap. */
  lemma ListGaps(t: Tree, x: seq<Tree>)
    requires t.Branch? && t.kind == LIST && IsList(t.children) && (Gaps(t) > 0 ==> x == [])
    ensures Items(Inner(t.children)) && Stops(Tail(t.children, x)) && GapsLast(Inner(t.children), Tail(t.children, x))
  {
    if Closed(t.children) {
      NoGaps(Inner(t.children));
    }
  }

  /** Unique readability of one item in front of anything, if nothing follows a list that is not closed. */
  lemma {:induction false} SameItem(t: Tree, x: seq<Tree>, u: Tree, y: seq<Tree>)
    requires Item(t) && Item(u) && LeavesOf(t) + x == LeavesOf(u) + y
    requires (Gaps(t) > 0 ==> x == []) && (Gaps(u) > 0 ==> y == [])
    ensures t == u && x == y
    decreases t, 1
  {
    ItemBegins(t);
    ItemBegins(u);
    assert LeavesOf(t)[0] == (LeavesOf(t) + x)[0] == (LeavesOf(u) + y)[0] == LeavesOf(u)[0];
    if t.Branch? && t.kind == LIST {
      SameList(t, x, u, y);
    } else {
      OneLeaf(t);
      OneLeaf(u);
      assert (LeavesOf(t) + x)[1..] == x && (LeavesOf(u) + y)[1..] == y;
    }
  }

  lemma OneLeaf(t: Tree)
    requires Item(t) && (t.Leaf? || t.kind == ATOM)
    ensures LeavesOf(t) == [if t.Leaf? then t else t.children[0]]
  {
    if t.Branch? {
      LeavesOfOne(t.children[0]);
      assert t.children == [t.children[0]];
    }
  }

  lemma {:induction false} SameList(t: Tree, x: seq<Tree>, u: Tree, y: seq<Tree>)
    requires t.Branch? && t.kind == LIST && IsList(t.children) && u.Branch? && u.kind == LIST && IsList(u.children)
    requires LeavesOf(t) + x == LeavesOf(u) + y
    requires (Gaps(t) > 0 ==> x == []) && (Gaps(u) > 0 ==> y == [])
    ensures t == u && x == y
    decreases t, 0
  {
    var a, b := Inner(t.children), Inner(u.children);
    ListParts(t.children, x);
    ListParts(u.children, y);
    ListGaps(t, x);
    ListGaps(u, y);
    AfterFirst(LeavesOfAll(a) + Tail(t.children, x), LeavesOfAll(b) + Tail(u.children, y));
    SameForest(a, Tail(t.children, x), b, Tail(u.children, y));
    SameTail(t, x, u, y);
  }

  lemma AfterFirst(a: seq<Tree>, b: seq<Tree>)
    requires [Leaf(L_PAREN, OPENING)] + a == [Leaf(L_PAREN, OPENING)] + b
    ensures a == b
  {
    assert ([Leaf(L_PAREN, OPENING)] + a)[1..] == a && ([Leaf(L_PAREN, OPENING)] + b)[1..] == b;
  }

  lemma SameTail(t: Tree, x: seq<Tree>, u: Tree, y: seq<Tree>)
    requires t.Branch? && t.kind == LIST && IsList(t.children) && u.Branch? && u.kind == LIST && IsList(u.children)
    requires (Gaps(t) > 0 ==> x == []) && (Gaps(u) > 0 ==> y == [])
    requires Tail(t.children, x) == Tail(u.children, y)
    ensures x == y && Tail(t.children, []) == Tail(u.children, [])
  {
    if Closed(t.children) && Closed(u.children) {
      assert Tail(t.children, x)[1..] == x && Tail(u.children, y)[1..] == y;
    }
  }

  lemma {:induction false} SameForest(a: seq<Tree>, x: seq<Tree>, b: seq<Tree>, y: seq<Tree>)
    requires Items(a) && Items(b) && Stops(x) && Stops(y) && GapsLast(a, x) && GapsLast(b, y)
    requires LeavesOfAll(a) + x == LeavesOfAll(b) + y
    ensures a == b && x == y
    decreases a, 2
  {
    if a == [] || b == [] {
      OneRunsOut(a, x, b, y);
    } else {
      LeavesOfFirst(a);
      LeavesOfFirst(b);
      FirstGap(a, x);
      FirstGap(b, y);
      var p, q := LeavesOfAll(a[1..]) + x, LeavesOfAll(b[1..]) + y;
      Associate(LeavesOf(a[0]), LeavesOfAll(a[1..]), x);
      Associate(LeavesOf(b[0]), LeavesOfAll(b[1..]), y);
      SameItem(a[0], p, b[0], q);
      SameForest(a[1..], x, b[1..], y);
      assert a == [a[0]] + a[1..] && b == [b[0]] + b[1..];
    }
  }

  lemma ForestBegins(ts: seq<Tree>, x: seq<Tree>)
    requires Items(ts) && ts != []
    ensures !Stops(LeavesOfAll(ts) + x)
  {
    LeavesOfFirst(ts);
    ItemBegins(ts[0]);
    assert (LeavesOfAll(ts) + x)[0] == LeavesOf(ts[0])[0];
  }

  lemma OneRunsOut(a: seq<Tree>, x: seq<Tree>, b: seq<Tree>, y: seq<Tree>)
    requires Items(a) && Items(b) && Stops(x) && Stops(y) && (a == [] || b == [])
    requires LeavesOfAll(a) + x == LeavesOfAll(b) + y
    ensures a == b && x == y
  {
    assert [] + x == x && [] + y == y;
    if a != [] { ForestBegins(a, x); }
    if b != [] { ForestBegins(b, y); }
  }

  lemma FirstGap(ts: seq<Tree>, x: seq<Tree>)
    requires ts != [] && GapsLast(ts, x)
    ensures Gaps(ts[0]) > 0 ==> LeavesOfAll(ts[1..]) + x == []
    ensures GapsLast(ts[1..], x)
  {
    GapsConcat([ts[0]], ts[1..]);
    GapsOne(ts[0]);
    assert ts == [ts[0]] + ts[1..];
    if |ts| > 1 {
      assert Gaps(ts[0]) == 0;
    }
  }

  /** Whatever two forests the parser may put under its root: if they have the same leaves they are equal.
      So the tree it returns is the only one of that form over its tokens. */
  lemma {:induction false} OneTreePerTokens(a: seq<Tree>, b: seq<Tree>)
    requires (forall t | t in a :: TopItem(t)) && LateGaps(a)
    requires (forall t | t in b :: TopItem(t)) && LateGaps(b)
    requires LeavesOfAll(a) == LeavesOfAll(b)
    ensures a == b
    decreases |a|
  {
    if a != [] { LeavesOfFirst(a); TopBegins(a[0]); }
    if b != [] { LeavesOfFirst(b); TopBegins(b[0]); }
    if a != [] && b != [] {
      SameTopItem(a, b);
      OneTreePerTokens(a[1..], b[1..]);
      assert a == [a[0]] + a[1..] && b == [b[0]] + b[1..];
    }
  }

  lemma TopBegins(t: Tree)
    requires TopItem(t)
    ensures LeavesOf(t) != []
    ensures Item(t) <==> LeavesOf(t)[0].kind != R_PAREN
    ensures !Item(t) ==> LeavesOf(t) == [Leaf(R_PAREN, CLOSING)] && t == Branch(ERROR, [Leaf(R_PAREN, CLOSING)])
  {
    if Item(t) {
      ItemBegins(t);
    } else {
      LeavesOfOne(Leaf(R_PAREN, CLOSING));
    }
  }

  lemma SameTopItem(a: seq<Tree>, b: seq<Tree>)
    requires a != [] && b != [] && TopItem(a[0]) && TopItem(b[0]) && LateGaps(a) && LateGaps(b)
    requires LeavesOfAll(a) == LeavesOfAll(b)
    ensures a[0] == b[0] && LeavesOfAll(a[1..]) == LeavesOfAll(b[1..])
  {
    LeavesOfFirst(a);
    LeavesOfFirst(b);
    TopBegins(a[0]);
    TopBegins(b[0]);
    assert LeavesOf(a[0])[0] == LeavesOfAll(a)[0] == LeavesOfAll(b)[0] == LeavesOf(b[0])[0];
    if Item(a[0]) {
      assert Gaps(a[0]) > 0 ==> a[1..] == [];
      assert Gaps(b[0]) > 0 ==> b[1..] == [];
      SameItem(a[0], LeavesOfAll(a[1..]), b[0], LeavesOfAll(b[1..]));
    } else {
      assert LeavesOfAll(a)[1..] == LeavesOfAll(a[1..]) && LeavesOfAll(b)[1..] == LeavesOfAll(b[1..]);
    }
  }
}

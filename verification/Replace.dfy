/** `replace_with`: rebuilding the path from an element to the root around a substitute. */
module Replace {
  import opened Base
  import opened Green
  import opened Red

  /** `None` is the assert on the kinds. A node is replaced by a node, a token by a token. */
  function ReplaceWith(h: Hasher, r: Handle, x: Element): Option<GreenNode>
    requires IsNode(r) == x.Node?
  {
    if KindOf(GreenOf(r)) != KindOf(x) then None else
    match r
    case Root(_) => Some(x)
    case Child(parent, me, _) =>
      if me >= |Kids(parent)| then None
      else ReplaceWith(h, parent, MakeNode(h, KindOf(GreenOf(parent)), Kids(parent)[me := x]))
  }

  /** The handle at the same place in another tree. */
  function Rebase(r: Handle, g: GreenNode): Handle {
    match r
    case Root(_) => Root(g)
    case Child(parent, index, _) =>
      var p := Rebase(parent, g);
      if index <= |Kids(p)| then ChildAt(p, index) else Child(p, index, 0)
  }

  // ----- what the result is

  /** The assert on kinds fails only at the element itself, never further up; the substitute ends up
      at the same place; every node on the way up is rebuilt around it. */
  lemma {:induction false} ReplacesInPlace(h: Hasher, r: Handle, x: Element)
    requires Valid(r) && IsNode(r) == x.Node?
    ensures ReplaceWith(h, r, x).Some? <==> KindOf(GreenOf(r)) == KindOf(x)
    ensures ReplaceWith(h, r, x).Some? ==> GreenOf(Rebase(r, ReplaceWith(h, r, x).value)) == x
    decreases r
  {
    if r.Child? && KindOf(GreenOf(r)) == KindOf(x) {
      ReplacesInPlace(h, r.parent, MakeNode(h, KindOf(GreenOf(r.parent)), Kids(r.parent)[r.index := x]));
    }
  }

  /** Replacing an element by an equal one gives an equal tree. */
  lemma {:induction false} ReplacingByItself(h: Hasher, r: Handle)
    requires Valid(r) && WellHeaded(h, TreeOf(r))
    ensures WellHeaded(h, GreenOf(r))
    ensures ReplaceWith(h, r, GreenOf(r)) == Some(TreeOf(r))
    decreases r
  {
    if r.Child? {
      ReplacingByItself(h, r.parent);
      assert Kids(r.parent)[r.index := GreenOf(r)] == Kids(r.parent);
      assert GreenOf(r.parent) == MakeNode(h, KindOf(GreenOf(r.parent)), Kids(r.parent));
    }
  }

  /** A later replacement at the same place overrides an earlier one. */
  lemma {:induction false} LaterReplacementWins(h: Hasher, r: Handle, x: Element, y: Element)
    requires Valid(r) && IsNode(r) == x.Node? == y.Node?
    requires KindOf(GreenOf(r)) == KindOf(x) == KindOf(y)
    ensures ReplaceWith(h, r, x).Some?
    ensures var g := ReplaceWith(h, r, x).value;
      IsNode(Rebase(r, g)) == y.Node? && ReplaceWith(h, Rebase(r, g), y) == ReplaceWith(h, r, y)
    decreases r
  {
    ReplacesInPlace(h, r, x);
    if r.Child? {
      var p, kind := r.parent, KindOf(GreenOf(r.parent));
      var px, py := MakeNode(h, kind, Kids(p)[r.index := x]), MakeNode(h, kind, Kids(p)[r.index := y]);
      ReplacesInPlace(h, p, px);
      LaterReplacementWins(h, p, px, py);
      assert Kids(p)[r.index := x][r.index := y] == Kids(p)[r.index := y];
    }
  }

  /** Heads stay right: the rebuilt tree satisfies the head invariant. */
  lemma {:induction false} ReplacingKeepsHeads(h: Hasher, r: Handle, x: Element)
    requires Valid(r) && IsNode(r) == x.Node? && WellHeaded(h, TreeOf(r)) && WellHeaded(h, x)
    requires KindOf(GreenOf(r)) == KindOf(x)
    ensures ReplaceWith(h, r, x).Some? && WellHeaded(h, ReplaceWith(h, r, x).value)
    decreases r
  {
    if r.Child? {
      ReplacingByItself(h, r.parent);
      var cs := Kids(r.parent)[r.index := x];
      assert AllHeaded(h, cs);
      ReplacingKeepsHeads(h, r.parent, MakeNode(h, KindOf(GreenOf(r.parent)), cs));
    }
  }

  // ----- the leaves: prefix, substitute, suffix

  function LeavesBefore(r: Handle): seq<GreenToken> {
    match r
    case Root(_) => []
    case Child(p, me, _) => LeavesBefore(p) + if me <= |Kids(p)| then LeavesAll(Kids(p)[..me]) else []
  }

  function LeavesAfter(r: Handle): seq<GreenToken> {
    match r
    case Root(_) => []
    case Child(p, me, _) => (if me < |Kids(p)| then LeavesAll(Kids(p)[me + 1..]) else []) + LeavesAfter(p)
  }

  lemma LeavesAllConcat(a: seq<Element>, b: seq<Element>)
    ensures LeavesAll(a + b) == LeavesAll(a) + LeavesAll(b)
  {
    JoinedMapConcat(cs => LeavesAll(cs), c => Leaves(c), a, b);
  }

  lemma LeavesAround(cs: seq<Element>, i: nat, x: Element)
    requires i < |cs|
    ensures LeavesAll(cs[i := x]) == LeavesAll(cs[..i]) + Leaves(x) + LeavesAll(cs[i + 1..])
  {
    assert cs[i := x] == cs[..i] + [x] + cs[i + 1..];
    LeavesAllConcat(cs[..i] + [x], cs[i + 1..]);
    assert (cs[..i] + [x])[..i] == cs[..i];
  }

  /** The new tree's tokens are the old ones before the element, the substitute's, and the old ones
      after it. */
  lemma {:induction false} ReplacedLeaves(h: Hasher, r: Handle, x: Element)
    requires Valid(r) && IsNode(r) == x.Node? && KindOf(GreenOf(r)) == KindOf(x)
    ensures ReplaceWith(h, r, x).Some?
    ensures Leaves(TreeOf(r)) == LeavesBefore(r) + Leaves(GreenOf(r)) + LeavesAfter(r)
    ensures Leaves(ReplaceWith(h, r, x).value) == LeavesBefore(r) + Leaves(x) + LeavesAfter(r)
    decreases r
  {
    if r.Child? {
      var cs, me, was := Kids(r.parent), r.index, GreenOf(r);
      ReplacedLeaves(h, r.parent, MakeNode(h, KindOf(GreenOf(r.parent)), cs[me := x]));
      assert cs[me := was] == cs;
      var a, b := LeavesAll(cs[..me]), LeavesAll(cs[me + 1..]);
      assert LeavesAll(cs) == a + Leaves(was) + b by { LeavesAround(cs, me, was); }
      assert LeavesAll(cs[me := x]) == a + Leaves(x) + b by { LeavesAround(cs, me, x); }
      Regroup(LeavesBefore(r.parent), a, Leaves(was), b, LeavesAfter(r.parent));
      Regroup(LeavesBefore(r.parent), a, Leaves(x), b, LeavesAfter(r.parent));
    }
  }

  lemma Regroup<T>(u: seq<T>, a: seq<T>, m: seq<T>, b: seq<T>, v: seq<T>)
    ensures u + (a + m + b) + v == (u + a) + m + (b + v)
  {
  }

  // ----- everything else stays, or moves by the difference in length

  lemma {:induction false} PrefixLenUpdate(cs: seq<Element>, k: nat, y: Element, n: nat)
    requires k < |cs| && n <= |cs|
    ensures PrefixLen(cs[k := y], n) == PrefixLen(cs, n) + if k < n then TextLen(y) - TextLen(cs[k]) else 0
  {
    if n > 0 {
      PrefixLenUpdate(cs, k, y, n - 1);
    }
  }

  lemma {:induction false} SumLenIsPrefixLen(cs: seq<Element>)
    ensures SumLen(cs) == Wrap(PrefixLen(cs, |cs|))
    decreases cs
  {
    if cs != [] {
      var n := |cs| - 1;
      SumLenIsPrefixLen(cs[..n]);
      PrefixLenOfPrefix(cs, n, n);
      WrapAdd(PrefixLen(cs, n), TextLen(cs[n]));
    }
  }

  /** How much longer the whole tree gets. */
  function Growth(r: Handle, x: Element): int {
    TextLen(x) - TextLen(GreenOf(r))
  }

  ghost predicate Fits(r: Handle, x: Element) {
    TextLen(TreeOf(r)) + Growth(r, x) < TWO32
  }

  lemma ParentGrowsAlike(h: Hasher, r: Handle, x: Element)
    requires Valid(r) && r.Child? && Fits(r, x)
    ensures var px := MakeNode(h, KindOf(GreenOf(r.parent)), Kids(r.parent)[r.index := x]);
      Growth(r.parent, px) == Growth(r, x) && Fits(r.parent, px)
  {
    var p, cs := r.parent, Kids(r.parent);
    SumLenIsPrefixLen(cs[r.index := x]);
    PrefixLenUpdate(cs, r.index, x, |cs|);
    PrefixLenMonotone(cs, r.index, r.index + 1);
    PrefixLenMonotone(cs, r.index + 1, |cs|);
    WithinRoot(p);
    WrapSmall(PrefixLen(cs[r.index := x], |cs|));
  }

  lemma {:induction false} WithinRoot(r: Handle)
    requires Valid(r)
    ensures TextLen(GreenOf(r)) <= TextLen(TreeOf(r)) && StartOf(r) >= 0 && EndOf(r) <= TextLen(TreeOf(r))
    decreases r
  {
    if r.Child? {
      WithinRoot(r.parent);
      ChildrenTile(r.parent, r.index);
    }
  }

  /** Every ancestor `a` of the element keeps its place, and of its children only the one towards
      the element changes. */
  lemma {:induction false} SpineRebuilt(h: Hasher, r: Handle, x: Element, a: Handle, k: nat) returns (y: Element)
    requires Valid(r) && IsNode(r) == x.Node? && KindOf(GreenOf(r)) == KindOf(x) && Fits(r, x)
    requires Valid(a) && k < |Kids(a)| && Within(ChildAt(a, k), r)
    ensures ReplaceWith(h, r, x).Some?
    ensures var a' := Rebase(a, ReplaceWith(h, r, x).value);
      && StartOf(a') == StartOf(a)
      && Kids(a') == Kids(a)[k := y]
      && TextLen(y) - TextLen(Kids(a)[k]) == Growth(r, x)
    decreases r
  {
    var px := MakeNode(h, KindOf(GreenOf(r.parent)), Kids(r.parent)[r.index := x]);
    if r == ChildAt(a, k) {
      y := x;
      ReplacesInPlace(h, r, x);
      ReplacesInPlace(h, a, px);
      StartKept(h, r, x);
    } else {
      ParentGrowsAlike(h, r, x);
      y := SpineRebuilt(h, r.parent, px, a, k);
    }
  }

  lemma {:induction false} StartKept(h: Hasher, r: Handle, x: Element)
    requires Valid(r) && IsNode(r) == x.Node? && KindOf(GreenOf(r)) == KindOf(x)
    ensures ReplaceWith(h, r, x).Some? && StartOf(Rebase(r, ReplaceWith(h, r, x).value)) == StartOf(r)
    ensures r.Child? ==> StartOf(Rebase(r.parent, ReplaceWith(h, r, x).value)) == StartOf(r.parent)
    decreases r
  {
    ReplacesInPlace(h, r, x);
    if r.Child? {
      var px := MakeNode(h, KindOf(GreenOf(r.parent)), Kids(r.parent)[r.index := x]);
      StartKept(h, r.parent, px);
      ReplacesInPlace(h, r.parent, px);
      PrefixLenUpdate(Kids(r.parent), r.index, x, r.index);
    }
  }

  /** Any element `q` off the path, in the subtree of a sibling `j` where the path goes through `k`,
      is the same element in the new tree, at the same offset if it lies to the left and shifted by
      the difference in length if it lies to the right. */
  lemma {:induction false} OthersStayOrShift(h: Hasher, r: Handle, x: Element, a: Handle, k: nat, j: nat, q: Handle)
    requires Valid(r) && IsNode(r) == x.Node? && KindOf(GreenOf(r)) == KindOf(x) && Fits(r, x)
    requires Valid(a) && k < |Kids(a)| && j < |Kids(a)| && k != j
    requires Within(ChildAt(a, k), r) && Valid(q) && Within(ChildAt(a, j), q)
    ensures ReplaceWith(h, r, x).Some?
    ensures var q' := Rebase(q, ReplaceWith(h, r, x).value);
      && GreenOf(q') == GreenOf(q)
      && StartOf(q') == StartOf(q) + if j > k then Growth(r, x) else 0
    decreases q
  {
    if q == ChildAt(a, j) {
      var y := SpineRebuilt(h, r, x, a, k);
      PrefixLenUpdate(Kids(a), k, y, j);
    } else {
      OthersStayOrShift(h, r, x, a, k, j, q.parent);
    }
  }
}

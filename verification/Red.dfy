/** The red tree: elements that know their parent, index and offset, and the steps between them. */
module Red {
  import opened Base
  import opened Green

  /** A handle to a node or token: a root, or the `index`-th child of a parent, with the offset
      that was stored when it was created. */
  datatype Handle = Root(green: GreenNode) | Child(parent: Handle, index: nat, offset: int)

  function GreenOf(r: Handle): Element
    decreases r, 0
  {
    match r
    case Root(green) => green
    case Child(parent, index, _) => if index < |Kids(parent)| then Kids(parent)[index] else Token(GreenToken(0, None, 0))
  }

  function Kids(r: Handle): seq<Element>
    decreases r, 1
  {
    match GreenOf(r)
    case Node(_, cs) => cs
    case Token(_) => []
  }

  function StartOf(r: Handle): int {
    match r
    case Root(_) => 0
    case Child(_, _, offset) => offset
  }

  function EndOf(r: Handle): int {
    StartOf(r) + TextLen(GreenOf(r))
  }

  predicate IsNode(r: Handle) {
    GreenOf(r).Node?
  }

  function Depth(r: Handle): nat {
    match r
    case Root(_) => 0
    case Child(parent, _, _) => Depth(parent) + 1
  }

  /** The green tree the handle belongs to. */
  function TreeOf(r: Handle): GreenNode {
    match r
    case Root(green) => green
    case Child(parent, _, _) => TreeOf(parent)
  }

  /** The child at `i`, at the one offset it can have. */
  function ChildAt(r: Handle, i: nat): Handle
    requires i <= |Kids(r)|
  {
    Child(r, i, StartOf(r) + PrefixLen(Kids(r), i))
  }

  /** A handle of a tree without wrapped lengths, whose index exists and whose stored offset is its
      parent's start plus the lengths of the siblings before it. */
  ghost predicate Valid(r: Handle) {
    && Exact(GreenOf(r))
    && (r.Child? ==> Valid(r.parent) && r.index < |Kids(r.parent)| && r == ChildAt(r.parent, r.index))
  }

  /** `x` is `r` or below it. */
  predicate Within(r: Handle, x: Handle) {
    x == r || (x.Child? && Within(r, x.parent))
  }

  // ----- navigation, computing offsets the way each route does

  /** The first child node at or after `i`, with `offset` running forward. */
  function NodeFrom(p: Handle, i: nat, offset: int): Option<Handle>
    decreases |Kids(p)| - i
  {
    if i >= |Kids(p)| then None
    else if Kids(p)[i].Node? then Some(Child(p, i, offset))
    else NodeFrom(p, i + 1, offset + TextLen(Kids(p)[i]))
  }

  /** The last child node before `i`, with `offset` running backward. */
  function NodeBefore(p: Handle, i: nat, offset: int): Option<Handle>
    requires i <= |Kids(p)|
  {
    if i == 0 then None
    else
      var start := offset - TextLen(Kids(p)[i - 1]);
      if Kids(p)[i - 1].Node? then Some(Child(p, i - 1, start)) else NodeBefore(p, i - 1, start)
  }

  /** The offset of child `i`, running forward from child `from` at `offset`. */
  function RunForward(cs: seq<Element>, from: nat, i: nat, offset: int): int
    requires i <= |cs|
    decreases i - from
  {
    if from >= i then offset else RunForward(cs, from + 1, i, offset + TextLen(cs[from]))
  }

  /** The offset of child `i`, running backward from the start `offset` of child `from`, or from the
      parent's end. */
  function RunBackward(cs: seq<Element>, from: nat, i: nat, offset: int): int
    requires from <= |cs|
  {
    if from <= i then offset else RunBackward(cs, from - 1, i, offset - TextLen(cs[from - 1]))
  }

  lemma {:induction false} RunForwardSums(cs: seq<Element>, from: nat, i: nat, offset: int)
    requires from <= i <= |cs|
    ensures RunForward(cs, from, i, offset) == offset + PrefixLen(cs, i) - PrefixLen(cs, from)
    decreases i - from
  {
    if from < i {
      RunForwardSums(cs, from + 1, i, offset + TextLen(cs[from]));
    }
  }

  lemma {:induction false} RunBackwardSums(cs: seq<Element>, from: nat, i: nat, offset: int)
    requires i <= from <= |cs|
    ensures RunBackward(cs, from, i, offset) == offset - (PrefixLen(cs, from) - PrefixLen(cs, i))
    decreases from
  {
    if from > i {
      RunBackwardSums(cs, from - 1, i, offset - TextLen(cs[from - 1]));
    }
  }

  /** What the search for a child node does to its offset on the way is that run. */
  lemma {:induction false} NodeFromRuns(p: Handle, i: nat, offset: int)
    requires i <= |Kids(p)|
    ensures match NodeFrom(p, i, offset)
      case None => true
      case Some(c) =>
        c.Child? && c.parent == p && i <= c.index < |Kids(p)| && c.offset == RunForward(Kids(p), i, c.index, offset)
    decreases |Kids(p)| - i
  {
    if i < |Kids(p)| && Kids(p)[i].Token? {
      NodeFromRuns(p, i + 1, offset + TextLen(Kids(p)[i]));
    }
  }

  lemma {:induction false} NodeBeforeRuns(p: Handle, i: nat, offset: int)
    requires i <= |Kids(p)|
    ensures match NodeBefore(p, i, offset)
      case None => true
      case Some(c) =>
        c.Child? && c.parent == p && c.index < i && c.offset == RunBackward(Kids(p), i, c.index, offset)
    decreases i
  {
    if i > 0 && Kids(p)[i - 1].Token? {
      NodeBeforeRuns(p, i - 1, offset - TextLen(Kids(p)[i - 1]));
    }
  }

  function FirstChildOrToken(r: Handle): Option<Handle> {
    if |Kids(r)| > 0 then Some(Child(r, 0, StartOf(r))) else None
  }

  function LastChildOrToken(r: Handle): Option<Handle> {
    var n := |Kids(r)|;
    if n > 0 then Some(Child(r, n - 1, EndOf(r) - TextLen(Kids(r)[n - 1]))) else None
  }

  function FirstChild(r: Handle): Option<Handle> {
    NodeFrom(r, 0, StartOf(r))
  }

  function LastChild(r: Handle): Option<Handle> {
    NodeBefore(r, |Kids(r)|, EndOf(r))
  }

  function NextSiblingOrToken(r: Handle): Option<Handle> {
    if r.Child? && r.index + 1 < |Kids(r.parent)| then Some(Child(r.parent, r.index + 1, EndOf(r))) else None
  }

  function PrevSiblingOrToken(r: Handle): Option<Handle> {
    if r.Child? && 0 < r.index <= |Kids(r.parent)|
    then Some(Child(r.parent, r.index - 1, StartOf(r) - TextLen(Kids(r.parent)[r.index - 1])))
    else None
  }

  function NextSibling(r: Handle): Option<Handle> {
    if r.Child? then NodeFrom(r.parent, r.index + 1, EndOf(r)) else None
  }

  function PrevSibling(r: Handle): Option<Handle> {
    if r.Child? && r.index <= |Kids(r.parent)| then NodeBefore(r.parent, r.index, StartOf(r)) else None
  }

  // ----- every route leads to the same handle

  lemma ChildIsValid(r: Handle, i: nat)
    requires Valid(r) && i < |Kids(r)|
    ensures Valid(ChildAt(r, i)) && GreenOf(ChildAt(r, i)) == Kids(r)[i]
    ensures EndOf(ChildAt(r, i)) == StartOf(r) + PrefixLen(Kids(r), i + 1)
  {
  }

  /** Siblings tile their parent: the first starts where it starts, each ends where the next one
      starts, the last ends where it ends, and every child lies inside. */
  lemma ChildrenTile(r: Handle, i: nat)
    requires Valid(r) && i < |Kids(r)|
    ensures StartOf(ChildAt(r, 0)) == StartOf(r)
    ensures i + 1 < |Kids(r)| ==> EndOf(ChildAt(r, i)) == StartOf(ChildAt(r, i + 1))
    ensures EndOf(ChildAt(r, |Kids(r)| - 1)) == EndOf(r)
    ensures StartOf(r) <= StartOf(ChildAt(r, i)) <= EndOf(ChildAt(r, i)) <= EndOf(r)
  {
    PrefixLenMonotone(Kids(r), i, |Kids(r)|);
    PrefixLenMonotone(Kids(r), 0, i);
  }

  /** From a parent: its first and its last child, forward and backward. */
  lemma ChildRoutes(r: Handle)
    requires Valid(r) && Kids(r) != []
    ensures FirstChildOrToken(r) == Some(ChildAt(r, 0))
    ensures LastChildOrToken(r) == Some(ChildAt(r, |Kids(r)| - 1))
  {
  }

  /** From a child: whichever neighbour it is reached from, a sibling gets the same parent, index
      and offset. */
  lemma SiblingRoutes(p: Handle, i: nat)
    requires i < |Kids(p)|
    ensures NextSiblingOrToken(ChildAt(p, i)) == if i + 1 < |Kids(p)| then Some(ChildAt(p, i + 1)) else None
    ensures PrevSiblingOrToken(ChildAt(p, i)) == if i > 0 then Some(ChildAt(p, i - 1)) else None
    ensures EndOf(ChildAt(p, i)) == StartOf(p) + PrefixLen(Kids(p), i + 1)
    ensures GreenOf(ChildAt(p, i)) == Kids(p)[i]
  {
  }

  lemma {:induction false} NodeFromIsCanonical(p: Handle, i: nat)
    requires i <= |Kids(p)|
    ensures match NodeFrom(p, i, StartOf(p) + PrefixLen(Kids(p), i))
      case None => forall j | i <= j < |Kids(p)| :: Kids(p)[j].Token?
      case Some(c) =>
        && c.Child? && i <= c.index < |Kids(p)| && c == ChildAt(p, c.index) && Kids(p)[c.index].Node?
        && forall j | i <= j < c.index :: Kids(p)[j].Token?
    decreases |Kids(p)| - i
  {
    if i < |Kids(p)| && Kids(p)[i].Token? {
      NodeFromIsCanonical(p, i + 1);
    }
  }

  lemma {:induction false} NodeBeforeIsCanonical(p: Handle, i: nat)
    requires i <= |Kids(p)|
    ensures match NodeBefore(p, i, StartOf(p) + PrefixLen(Kids(p), i))
      case None => forall j | 0 <= j < i :: Kids(p)[j].Token?
      case Some(c) =>
        && c.Child? && c.index < i && c == ChildAt(p, c.index) && Kids(p)[c.index].Node?
        && forall j | c.index < j < i :: Kids(p)[j].Token?
  {
    if i > 0 && Kids(p)[i - 1].Token? {
      NodeBeforeIsCanonical(p, i - 1);
    }
  }

  /** From a parent to its first and last child node, skipping tokens forward and backward. */
  lemma NodeChildRoutes(r: Handle)
    requires Valid(r)
    ensures match FirstChild(r)
      case None => forall j | 0 <= j < |Kids(r)| :: Kids(r)[j].Token?
      case Some(c) =>
        && c.Child? && c.index < |Kids(r)| && c == ChildAt(r, c.index) && IsNode(c)
        && forall j | 0 <= j < c.index :: Kids(r)[j].Token?
    ensures match LastChild(r)
      case None => forall j | 0 <= j < |Kids(r)| :: Kids(r)[j].Token?
      case Some(c) =>
        && c.Child? && c.index < |Kids(r)| && c == ChildAt(r, c.index) && IsNode(c)
        && forall j | c.index < j < |Kids(r)| :: Kids(r)[j].Token?
  {
    NodeFromIsCanonical(r, 0);
    if IsNode(r) {
      NodeBeforeIsCanonical(r, |Kids(r)|);
    }
  }

  /** Run forward or backward, from a parent's end or from a sibling, the offset is the same. */
  lemma RunsAreCanonical(p: Handle, i: nat, j: nat)
    requires Valid(p) && i < |Kids(p)| && j < |Kids(p)|
    ensures RunForward(Kids(p), 0, i, StartOf(p)) == StartOf(ChildAt(p, i))
    ensures RunBackward(Kids(p), |Kids(p)|, i, EndOf(p)) == StartOf(ChildAt(p, i))
    ensures j < i ==> RunForward(Kids(p), j + 1, i, EndOf(ChildAt(p, j))) == StartOf(ChildAt(p, i))
    ensures i < j ==> RunBackward(Kids(p), j, i, StartOf(ChildAt(p, j))) == StartOf(ChildAt(p, i))
  {
    RunForwardSums(Kids(p), 0, i, StartOf(p));
    RunBackwardSums(Kids(p), |Kids(p)|, i, EndOf(p));
    SiblingRoutes(p, j);
    if j < i {
      RunForwardSums(Kids(p), j + 1, i, EndOf(ChildAt(p, j)));
    } else {
      RunBackwardSums(Kids(p), j, i, StartOf(ChildAt(p, j)));
    }
  }

  /** If a step ends at child `i` of `p`, it computed this offset for it. */
  predicate Asks(c: Option<Handle>, p: Handle, i: nat, offset: int) {
    c.Some? && c.value.Child? && c.value.index == i ==> c.value == Child(p, i, offset)
  }

  lemma FirstsAsk(p: Handle, i: nat)
    requires i < |Kids(p)|
    ensures Asks(FirstChildOrToken(p), p, i, RunForward(Kids(p), 0, i, StartOf(p)))
    ensures Asks(FirstChild(p), p, i, RunForward(Kids(p), 0, i, StartOf(p)))
  {
    NodeFromRuns(p, 0, StartOf(p));
  }

  lemma LastsAsk(p: Handle, i: nat)
    requires i < |Kids(p)|
    ensures Asks(LastChildOrToken(p), p, i, RunBackward(Kids(p), |Kids(p)|, i, EndOf(p)))
    ensures Asks(LastChild(p), p, i, RunBackward(Kids(p), |Kids(p)|, i, EndOf(p)))
  {
    var n := |Kids(p)|;
    NodeBeforeRuns(p, n, EndOf(p));
    if i == n - 1 {
      assert RunBackward(Kids(p), n, i, EndOf(p)) == RunBackward(Kids(p), i, i, EndOf(p) - TextLen(Kids(p)[i]));
    }
  }

  lemma NextsAsk(p: Handle, i: nat, j: nat)
    requires i < |Kids(p)| && j < |Kids(p)|
    ensures Asks(NextSiblingOrToken(ChildAt(p, j)), p, i, RunForward(Kids(p), j + 1, i, EndOf(ChildAt(p, j))))
    ensures Asks(NextSibling(ChildAt(p, j)), p, i, RunForward(Kids(p), j + 1, i, EndOf(ChildAt(p, j))))
  {
    NodeFromRuns(p, j + 1, EndOf(ChildAt(p, j)));
  }

  lemma PrevsAsk(p: Handle, i: nat, j: nat)
    requires i < |Kids(p)| && j < |Kids(p)|
    ensures Asks(PrevSiblingOrToken(ChildAt(p, j)), p, i, RunBackward(Kids(p), j, i, StartOf(ChildAt(p, j))))
    ensures Asks(PrevSibling(ChildAt(p, j)), p, i, RunBackward(Kids(p), j, i, StartOf(ChildAt(p, j))))
  {
    var start := StartOf(ChildAt(p, j));
    NodeBeforeRuns(p, j, start);
    if i + 1 == j {
      assert RunBackward(Kids(p), j, i, start) == RunBackward(Kids(p), i, i, start - TextLen(Kids(p)[i]));
    }
  }

  /** Child `i` is a node, and there is none between it and child `j`, which comes after it. */
  predicate LastNodeBefore(cs: seq<Element>, i: nat, j: nat) {
    i < j <= |cs| && cs[i].Node? && forall k | i < k < j :: cs[k].Token?
  }

  /** Child `i` is a node, and there is none between it and child `j`, which comes before it. */
  predicate FirstNodeAfter(cs: seq<Element>, i: nat, j: nat) {
    j < i < |cs| && cs[i].Node? && forall k | j < k < i :: cs[k].Token?
  }

  /** From a child to the nearest node before and after it: that node, at its one offset, and nothing
      exactly when there are only tokens on that side; a root has no siblings. */
  lemma NodeSiblingRoutes(p: Handle, j: nat, g: GreenNode)
    requires j < |Kids(p)|
    ensures PrevSibling(ChildAt(p, j)) == None <==> forall i | 0 <= i < j :: Kids(p)[i].Token?
    ensures NextSibling(ChildAt(p, j)) == None <==> forall i | j < i < |Kids(p)| :: Kids(p)[i].Token?
    ensures forall c :: PrevSibling(ChildAt(p, j)) == Some(c) <==>
              c.Child? && LastNodeBefore(Kids(p), c.index, j) && c == ChildAt(p, c.index)
    ensures forall c :: NextSibling(ChildAt(p, j)) == Some(c) <==>
              c.Child? && FirstNodeAfter(Kids(p), c.index, j) && c == ChildAt(p, c.index)
    ensures PrevSibling(Root(g)) == NextSibling(Root(g)) == PrevSiblingOrToken(Root(g)) == NextSiblingOrToken(Root(g)) == None
  {
    SiblingRoutes(p, j);
    NodeFromIsCanonical(p, j + 1);
    NodeBeforeIsCanonical(p, j);
    NearestIsUnique(p, j);
  }

  lemma NearestIsUnique(p: Handle, j: nat)
    requires j < |Kids(p)|
    ensures forall a, b | LastNodeBefore(Kids(p), a, j) && LastNodeBefore(Kids(p), b, j) :: a == b
    ensures forall a, b | FirstNodeAfter(Kids(p), a, j) && FirstNodeAfter(Kids(p), b, j) :: a == b
  {
  }

  /** Steps right and left undo each other, over all elements and over nodes alone. */
  lemma SiblingStepsAreInverse(p: Handle, i: nat, j: nat)
    requires i < |Kids(p)| && j < |Kids(p)|
    ensures var r, s := ChildAt(p, i), ChildAt(p, j);
      && (NextSiblingOrToken(r) == Some(s) <==> PrevSiblingOrToken(s) == Some(r))
      && (IsNode(r) && IsNode(s) ==> (NextSibling(r) == Some(s) <==> PrevSibling(s) == Some(r)))
  {
    SiblingRoutes(p, i);
    SiblingRoutes(p, j);
    NodeFromIsCanonical(p, i + 1);
    NodeBeforeIsCanonical(p, j);
  }

  // ----- ancestry

  lemma {:induction false} WithinDepth(r: Handle, x: Handle)
    requires Within(r, x)
    ensures Depth(r) <= Depth(x) && (Depth(r) == Depth(x) ==> x == r)
    ensures TreeOf(r) == TreeOf(x)
    decreases x
  {
    if x != r {
      WithinDepth(r, x.parent);
    }
  }

  lemma {:induction false} WithinTransitive(a: Handle, b: Handle, c: Handle)
    requires Within(a, b) && Within(b, c)
    ensures Within(a, c)
    decreases c
  {
    if c != b {
      WithinTransitive(a, b, c.parent);
    }
  }

  lemma {:induction false} WithinRange(r: Handle, x: Handle)
    requires Valid(x) && Within(r, x)
    ensures Valid(r) && StartOf(r) <= StartOf(x) <= EndOf(x) <= EndOf(r)
    decreases x
  {
    if x != r {
      WithinRange(r, x.parent);
      ChildrenTile(x.parent, x.index);
    }
  }

  /** Below `r`, `x` is reached through exactly one child of `r`. */
  lemma {:induction false} ThroughChild(r: Handle, x: Handle) returns (i: nat)
    requires Valid(x) && Within(r, x) && x != r
    ensures Valid(r) && i < |Kids(r)| && Within(ChildAt(r, i), x)
    decreases x
  {
    if x.parent == r {
      i := x.index;
    } else {
      i := ThroughChild(r, x.parent);
    }
  }

  /** The running index and offset of the child iterators. */
  class ChildIter {
    const parent: Handle
    var index: nat
    var offset: int

    ghost predicate Aligned()
      reads this
    {
      Valid(parent) && index <= |Kids(parent)| && offset == StartOf(parent) + PrefixLen(Kids(parent), index)
    }

    constructor (parent: Handle)
      requires Valid(parent)
      ensures this.parent == parent && index == 0 && Aligned()
    {
      this.parent := parent;
      index, offset := 0, StartOf(parent);
    }

    /** `SyntaxElementChildren::next`. */
    method NextElement() returns (r: Option<Handle>)
      requires Aligned()
      modifies this
      ensures Aligned()
      ensures r == if old(index) < |Kids(parent)| then Some(ChildAt(parent, old(index))) else None
      ensures index == if r.Some? then old(index) + 1 else old(index)
    {
      if index == |Kids(parent)| {
        return None;
      }
      r := Some(Child(parent, index, offset));
      offset := offset + TextLen(Kids(parent)[index]);
      index := index + 1;
    }

    /** `SyntaxNodeChildren::next`: skips tokens. */
    method NextNode() returns (r: Option<Handle>)
      requires Aligned()
      modifies this
      ensures Aligned() && old(index) <= index
      ensures r.None? ==> index == |Kids(parent)| && forall j | old(index) <= j < index :: Kids(parent)[j].Token?
      ensures r.Some? ==> index > old(index) && r.value == ChildAt(parent, index - 1) && Kids(parent)[index - 1].Node?
      ensures r.Some? ==> forall j | old(index) <= j < index - 1 :: Kids(parent)[j].Token?
    {
      while true
        invariant Aligned() && old(index) <= index
        invariant forall j | old(index) <= j < index :: Kids(parent)[j].Token?
        decreases |Kids(parent)| - index
      {
        r := NextElement();
        if r.None? || Kids(parent)[index - 1].Node? {
          return;
        }
      }
    }
  }
}

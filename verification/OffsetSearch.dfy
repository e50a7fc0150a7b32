/** Finding tokens by offset and elements by range. */
module OffsetSearch {
  import opened Base
  import opened Green
  import opened Red
  import opened TokenWalk

  datatype AtOffset = Nothing | Single(token: Handle) | Between(left: Handle, right: Handle)

  predicate NonEmpty(r: Handle) {
    TextLen(GreenOf(r)) > 0
  }

  /** The closed range of `r` contains `offset`. */
  predicate Touches(r: Handle, offset: int) {
    StartOf(r) <= offset <= EndOf(r)
  }

  /** The children, from the `i`-th on, that survive the filter. */
  function HitKids(r: Handle, i: nat, offset: int): (hits: seq<Handle>)
    requires i <= |Kids(r)|
    ensures forall k | 0 <= k < |hits| :: hits[k].Child? && hits[k].index < |Kids(r)| && hits[k] == ChildAt(r, hits[k].index)
    decreases |Kids(r)| - i
  {
    if i == |Kids(r)| then []
    else
      var c := ChildAt(r, i);
      (if NonEmpty(c) && Touches(c, offset) then [c] else []) + HitKids(r, i + 1, offset)
  }

  /** `token_at_offset`, with `None` for each of its asserts, its `unwrap` and its unreachable arm. */
  function TokenAtOffset(r: Handle, offset: int): Option<AtOffset>
    decreases GreenOf(r)
  {
    if !Touches(r, offset) then None
    else if GreenOf(r).Token? then Some(Single(r))
    else if !NonEmpty(r) then Some(Nothing)
    else
      var hits := HitKids(r, 0, offset);
      if hits == [] || |hits| > 2 then None
      else if |hits| == 2 then
        match (TokenAtOffset(hits[0], offset), TokenAtOffset(hits[1], offset))
        case (Some(Single(left)), Some(Single(right))) => Some(Between(left, right))
        case _ => None
      else TokenAtOffset(hits[0], offset)
  }

  /** The non-empty tokens of a list whose closed range contains `offset`. */
  function Touching(ts: seq<Handle>, offset: int): seq<Handle> {
    if ts == [] then []
    else (if NonEmpty(ts[0]) && Touches(ts[0], offset) then [ts[0]] else []) + Touching(ts[1..], offset)
  }

  function Report(ts: seq<Handle>): Option<AtOffset> {
    if ts == [] then Some(Nothing)
    else if |ts| == 1 then Some(Single(ts[0]))
    else if |ts| == 2 then Some(Between(ts[0], ts[1]))
    else None
  }

  lemma TouchingConcat(a: seq<Handle>, b: seq<Handle>, offset: int)
    ensures Touching(a + b, offset) == Touching(a, offset) + Touching(b, offset)
  {
    MapJoinedConcat(ts => Touching(ts, offset), (t: Handle) => if NonEmpty(t) && Touches(t, offset) then [t] else [], a, b);
  }

  lemma {:induction false} TokensInside(r: Handle)
    requires Valid(r)
    ensures forall t | t in Tokens(r) :: StartOf(r) <= StartOf(t) <= EndOf(t) <= EndOf(r)
    decreases GreenOf(r), 1, 0
  {
    if IsNode(r) {
      TokensInsideFrom(r, 0);
    }
  }

  lemma {:induction false} TokensInsideFrom(r: Handle, i: nat)
    requires Valid(r) && i <= |Kids(r)|
    ensures forall t | t in TokensFrom(r, i) :: StartOf(r) <= StartOf(t) <= EndOf(t) <= EndOf(r)
    decreases GreenOf(r), 0, |Kids(r)| - i
  {
    if i < |Kids(r)| {
      ChildIsValid(r, i);
      ChildrenTile(r, i);
      TokensInside(ChildAt(r, i));
      TokensInsideFrom(r, i + 1);
    }
  }

  lemma {:induction false} NothingTouched(ts: seq<Handle>, offset: int)
    requires forall t | t in ts :: !(NonEmpty(t) && Touches(t, offset))
    ensures Touching(ts, offset) == []
  {
    if ts != [] {
      NothingTouched(ts[1..], offset);
    }
  }

  /** A child that the filter drops has no token to report. */
  lemma MissHasNoTokens(c: Handle, offset: int)
    requires Valid(c) && !(NonEmpty(c) && Touches(c, offset))
    ensures Touching(Tokens(c), offset) == []
  {
    TokensInside(c);
    NothingTouched(Tokens(c), offset);
  }

  function TouchingAll(hits: seq<Handle>, offset: int): seq<Handle> {
    if hits == [] then [] else Touching(Tokens(hits[0]), offset) + TouchingAll(hits[1..], offset)
  }

  lemma {:induction false} HitsHoldAllTokens(r: Handle, i: nat, offset: int)
    requires Valid(r) && i <= |Kids(r)|
    ensures Touching(TokensFrom(r, i), offset) == TouchingAll(HitKids(r, i, offset), offset)
    decreases |Kids(r)| - i
  {
    if i < |Kids(r)| {
      var c, rest := ChildAt(r, i), TokensFrom(r, i + 1);
      HitsHoldAllTokens(r, i + 1, offset);
      assert Touching(TokensFrom(r, i), offset) == Touching(Tokens(c), offset) + Touching(rest, offset) by {
        TouchingConcat(Tokens(c), rest, offset);
      }
      var hits := HitKids(r, i + 1, offset);
      if NonEmpty(c) && Touches(c, offset) {
        assert HitKids(r, i, offset) == [c] + hits && ([c] + hits)[1..] == hits;
      } else {
        assert HitKids(r, i, offset) == hits;
        ChildIsValid(r, i);
        MissHasNoTokens(c, offset);
      }
    }
  }

  /** Because siblings tile, the filter keeps one child, or two that meet at the offset. */
  ghost predicate HitsFit(end: int, hits: seq<Handle>, from: int, offset: int) {
    && (offset < from ==> hits == [])
    && (offset == from ==> |hits| <= 1 && (hits != [] ==> StartOf(hits[0]) == offset) && (hits == [] <==> from == end))
    && (from < offset <= end ==>
          && 1 <= |hits| <= 2
          && (|hits| == 2 ==> EndOf(hits[0]) == offset == StartOf(hits[1]))
          && (offset == end ==> |hits| == 1 && EndOf(hits[0]) == offset))
  }

  lemma HitsFitStep(end: int, c: Handle, rest: seq<Handle>, from: int, mid: int, offset: int)
    requires from == StartOf(c) && EndOf(c) == mid <= end
    requires HitsFit(end, rest, mid, offset)
    ensures HitsFit(end, (if NonEmpty(c) && Touches(c, offset) then [c] else []) + rest, from, offset)
  {
    if !(NonEmpty(c) && Touches(c, offset)) {
      assert [] + rest == rest;
    } else {
      assert ([c] + rest)[0] == c && (rest != [] ==> ([c] + rest)[1] == rest[0]);
    }
  }

  lemma EndIsPrefixLen(r: Handle)
    requires Valid(r) && IsNode(r)
    ensures EndOf(r) == StartOf(r) + PrefixLen(Kids(r), |Kids(r)|)
  {
  }

  lemma {:induction false} HitKidsFit(r: Handle, i: nat, offset: int)
    requires IsNode(r) && EndOf(r) == StartOf(r) + PrefixLen(Kids(r), |Kids(r)|) && i <= |Kids(r)|
    ensures HitsFit(EndOf(r), HitKids(r, i, offset), StartOf(r) + PrefixLen(Kids(r), i), offset)
    decreases |Kids(r)| - i
  {
    if i < |Kids(r)| {
      var from := StartOf(r) + PrefixLen(Kids(r), i);
      var mid := StartOf(r) + PrefixLen(Kids(r), i + 1);
      var c, end := ChildAt(r, i), EndOf(r);
      assert mid <= end by { PrefixLenMonotone(Kids(r), i + 1, |Kids(r)|); }
      assert StartOf(c) == from && EndOf(c) == mid by { SiblingRoutes(r, i); }
      var rest := HitKids(r, i + 1, offset);
      HitKidsFit(r, i + 1, offset);
      HitsFitStep(end, c, rest, from, mid, offset);
    }
  }

  /** For a non-empty element the search agrees with the flat token list, and reports a single
      token at either end of the element. */
  lemma {:induction false} SearchAgreesWithTokens(r: Handle, offset: int)
    requires Valid(r) && NonEmpty(r) && Touches(r, offset)
    ensures var ts := Touching(Tokens(r), offset);
      && 1 <= |ts| <= 2
      && (offset == StartOf(r) || offset == EndOf(r) ==> |ts| == 1)
      && TokenAtOffset(r, offset) == Report(ts)
    decreases GreenOf(r)
  {
    if IsNode(r) {
      var hits := HitKids(r, 0, offset);
      HitsDecide(r, offset);
      SearchAgreesWithTokens(hits[0], offset);
      if |hits| == 2 {
        SearchAgreesWithTokens(hits[1], offset);
        TwoHits(r, offset, Touching(Tokens(hits[0]), offset), Touching(Tokens(hits[1]), offset));
      } else {
        OneHit(r, offset);
      }
    } else {
      assert [r][1..] == [];
    }
  }

  lemma OneHit(r: Handle, offset: int)
    requires IsNode(r) && NonEmpty(r) && Touches(r, offset) && |HitKids(r, 0, offset)| == 1
    ensures TokenAtOffset(r, offset) == TokenAtOffset(HitKids(r, 0, offset)[0], offset)
  {
  }

  lemma TwoHits(r: Handle, offset: int, left: seq<Handle>, right: seq<Handle>)
    requires IsNode(r) && NonEmpty(r) && Touches(r, offset) && |HitKids(r, 0, offset)| == 2
    requires |left| == 1 && TokenAtOffset(HitKids(r, 0, offset)[0], offset) == Report(left)
    requires |right| == 1 && TokenAtOffset(HitKids(r, 0, offset)[1], offset) == Report(right)
    ensures TokenAtOffset(r, offset) == Report(left + right)
  {
  }

  lemma TouchingAllOne(hits: seq<Handle>, offset: int)
    requires |hits| == 1
    ensures TouchingAll(hits, offset) == Touching(Tokens(hits[0]), offset)
  {
    assert hits[1..] == [];
    assert Touching(Tokens(hits[0]), offset) + [] == Touching(Tokens(hits[0]), offset);
  }

  lemma HitsDecide(r: Handle, offset: int)
    requires Valid(r) && IsNode(r) && NonEmpty(r) && Touches(r, offset)
    ensures var hits := HitKids(r, 0, offset);
            var ts := Touching(Tokens(r), offset);
      && 1 <= |hits| <= 2
      && (forall h | h in hits :: Valid(h) && NonEmpty(h) && Touches(h, offset) && GreenOf(h) in Kids(r))
      && (|hits| == 1 ==> ts == Touching(Tokens(hits[0]), offset)
                          && (offset == StartOf(r) ==> offset == StartOf(hits[0]))
                          && (offset == EndOf(r) ==> offset == EndOf(hits[0])))
      && (|hits| == 2 ==> ts == Touching(Tokens(hits[0]), offset) + Touching(Tokens(hits[1]), offset)
                          && EndOf(hits[0]) == offset == StartOf(hits[1])
                          && StartOf(r) < offset < EndOf(r))
  {
    var hits := HitKids(r, 0, offset);
    EndIsPrefixLen(r);
    HitKidsFit(r, 0, offset);
    HitKidsAreHits(r, 0, offset);
    assert Touching(Tokens(r), offset) == TouchingAll(hits, offset) by { HitsHoldAllTokens(r, 0, offset); }
    if |hits| == 2 {
      TouchingAllOne(hits[1..], offset);
    } else {
      TouchingAllOne(hits, offset);
    }
  }

  lemma {:induction false} HitKidsAreHits(r: Handle, i: nat, offset: int)
    requires Valid(r) && i <= |Kids(r)|
    ensures forall h | h in HitKids(r, i, offset) :: Valid(h) && NonEmpty(h) && Touches(h, offset) && GreenOf(h) in Kids(r)
    decreases |Kids(r)| - i
  {
    if i < |Kids(r)| {
      ChildIsValid(r, i);
      HitKidsAreHits(r, i + 1, offset);
    }
  }

  /** `token_at_offset` on a node, for every offset in its closed range: none of its asserts, its
      `unwrap` or its unreachable arm is hit, and it reports, in order, exactly the non-empty tokens
      whose closed range contains the offset; that is none if the node is empty, else one or two. */
  lemma TokenAtOffsetIsExact(r: Handle, offset: int)
    requires Valid(r) && IsNode(r) && Touches(r, offset)
    ensures TokenAtOffset(r, offset).Some?
    ensures TokenAtOffset(r, offset) == Report(Touching(Tokens(r), offset))
    ensures TokenAtOffset(r, offset) == Some(Nothing) <==> !NonEmpty(r)
  {
    if NonEmpty(r) {
      SearchAgreesWithTokens(r, offset);
    } else {
      MissHasNoTokens(r, offset);
    }
  }

  /** Its assert on the offset fails exactly outside the closed range, and nothing else does. */
  lemma TokenAtOffsetFailsOutside(r: Handle, offset: int)
    requires Valid(r) && IsNode(r)
    ensures TokenAtOffset(r, offset) == None <==> !Touches(r, offset)
  {
    if Touches(r, offset) {
      TokenAtOffsetIsExact(r, offset);
    }
  }

  // ----- covering element

  predicate Contains(r: Handle, lo: int, hi: int) {
    StartOf(r) <= lo && hi <= EndOf(r)
  }

  lemma {:induction false} ContainsUpward(r: Handle, x: Handle, lo: int, hi: int)
    requires Valid(x) && Within(r, x) && Contains(x, lo, hi)
    ensures Valid(r) && Contains(r, lo, hi)
  {
    WithinRange(r, x);
  }

  /** A non-empty range lies in at most one child. */
  lemma OnlyOneChildContains(r: Handle, i: nat, j: nat, lo: int, hi: int)
    requires Valid(r) && i < |Kids(r)| && j < |Kids(r)| && lo < hi
    requires Contains(ChildAt(r, i), lo, hi) && Contains(ChildAt(r, j), lo, hi)
    ensures i == j
  {
    SiblingRoutes(r, i);
    SiblingRoutes(r, j);
    if i < j {
      PrefixLenMonotone(Kids(r), i + 1, j);
    } else if j < i {
      PrefixLenMonotone(Kids(r), j + 1, i);
    }
  }

  /** On every step down from `me` to `res`, no earlier child contains the range. */
  ghost predicate FirstOnTheWay(me: Handle, res: Handle, lo: int, hi: int) {
    forall a, k, j | Valid(a) && Within(me, a) && 0 <= j < k < |Kids(a)| && Within(ChildAt(a, k), res) ::
      !Contains(ChildAt(a, j), lo, hi)
  }

  lemma OneStepFurther(me: Handle, res: Handle, found: nat, lo: int, hi: int)
    requires FirstOnTheWay(me, res, lo, hi) && Within(me, res) && found < |Kids(res)|
    requires forall j | 0 <= j < found :: !Contains(ChildAt(res, j), lo, hi)
    ensures FirstOnTheWay(me, ChildAt(res, found), lo, hi)
  {
    forall a, k, j | Valid(a) && Within(me, a) && 0 <= j < k < |Kids(a)| && Within(ChildAt(a, k), ChildAt(res, found))
      ensures !Contains(ChildAt(a, j), lo, hi) {
      assert ChildAt(a, k) == ChildAt(res, found) || Within(ChildAt(a, k), res);
    }
  }

  lemma NotBelowItsChild(me: Handle, a: Handle, k: nat)
    requires Within(me, a) && k <= |Kids(a)|
    ensures !Within(ChildAt(a, k), me)
  {
    WithinDepth(me, a);
    if Within(ChildAt(a, k), me) {
      WithinDepth(ChildAt(a, k), me);
      assert false;
    }
  }

  lemma NothingOnTheWay(me: Handle, lo: int, hi: int)
    ensures FirstOnTheWay(me, me, lo, hi)
  {
    forall a, k | Within(me, a) && 0 <= k < |Kids(a)| ensures !Within(ChildAt(a, k), me) {
      NotBelowItsChild(me, a, k);
    }
  }

  /** Descends while a child contains the range. Its assert fails (`None`) exactly on a range that is not
      inside `me`. Otherwise the result contains the range and no child of it does; every step down took
      the first child that contains the range, empty ones included; and if the range is not empty,
      whatever element below `me` contains it is the result or an ancestor of the result. */
  method CoveringElement(me: Handle, lo: int, hi: int) returns (r: Option<Handle>)
    requires Valid(me) && lo <= hi
    ensures r.None? <==> !Contains(me, lo, hi)
    ensures r.Some? ==> Valid(r.value) && Within(me, r.value) && Contains(r.value, lo, hi)
    ensures r.Some? ==> forall i | 0 <= i < |Kids(r.value)| :: !Contains(ChildAt(r.value, i), lo, hi)
    ensures r.Some? ==> FirstOnTheWay(me, r.value, lo, hi)
    ensures r.Some? && lo < hi ==> forall x | Valid(x) && Within(me, x) && Contains(x, lo, hi) :: Within(x, r.value)
  {
    var res := me;
    NothingOnTheWay(me, lo, hi);
    while true
      invariant Valid(res) && Within(me, res) && FirstOnTheWay(me, res, lo, hi)
      invariant res != me ==> Contains(me, lo, hi) && Contains(res, lo, hi)
      invariant lo < hi ==> forall x | Valid(x) && Within(me, x) && Contains(x, lo, hi) :: Within(x, res) || Within(res, x)
      decreases GreenOf(res)
    {
      if !Contains(res, lo, hi) {
        return None;
      }
      var found := FindContaining(res, lo, hi);
      if found == |Kids(res)| {
        if lo < hi {
          NoneBelow(res, lo, hi);
        }
        return Some(res);
      }
      ChildIsValid(res, found);
      if lo < hi {
        StillComparable(res, found, lo, hi);
      }
      WithinTransitive(me, res, ChildAt(res, found));
      OneStepFurther(me, res, found, lo, hi);
      res := ChildAt(res, found);
    }
  }

  method FindContaining(r: Handle, lo: int, hi: int) returns (i: nat)
    requires Valid(r)
    ensures i <= |Kids(r)| && forall j | 0 <= j < i :: !Contains(ChildAt(r, j), lo, hi)
    ensures i < |Kids(r)| ==> Contains(ChildAt(r, i), lo, hi)
  {
    var iter := new ChildIter(r);
    i := 0;
    while i < |Kids(r)|
      invariant iter.Aligned() && iter.parent == r && iter.index == i <= |Kids(r)|
      invariant forall j | 0 <= j < i :: !Contains(ChildAt(r, j), lo, hi)
    {
      var c := iter.NextElement();
      if Contains(c.value, lo, hi) {
        return;
      }
      i := i + 1;
    }
  }

  lemma NoneBelow(res: Handle, lo: int, hi: int)
    requires Valid(res)
    requires forall i | 0 <= i < |Kids(res)| :: !Contains(ChildAt(res, i), lo, hi)
    ensures forall x | Valid(x) && Within(res, x) && Contains(x, lo, hi) :: x == res
  {
    forall x | Valid(x) && Within(res, x) && Contains(x, lo, hi) ensures x == res {
      if x != res {
        var i := ThroughChild(res, x);
        ContainsUpward(ChildAt(res, i), x, lo, hi);
      }
    }
  }

  lemma StillComparable(res: Handle, found: nat, lo: int, hi: int)
    requires Valid(res) && lo < hi && found < |Kids(res)| && Contains(ChildAt(res, found), lo, hi)
    ensures forall x | Valid(x) && Within(res, x) && Contains(x, lo, hi) :: x == res || Within(ChildAt(res, found), x)
    ensures forall x | Within(x, res) :: Within(x, ChildAt(res, found))
  {
    forall x | Valid(x) && Within(res, x) && Contains(x, lo, hi) ensures x == res || Within(ChildAt(res, found), x) {
      if x != res {
        var i := ThroughChild(res, x);
        ContainsUpward(ChildAt(res, i), x, lo, hi);
        OnlyOneChildContains(res, i, found, lo, hi);
      }
    }
  }
}

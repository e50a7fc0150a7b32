/** Text spread over tokens: slicing, searching and comparing it without joining it. */
module SyntaxText {
  import opened Base
  import opened Green
  import opened BuilderSpec
  import opened Refinement
  import Reference
  import opened Red
  import opened TokenWalk
  import Preorder

  /** What a list of chunks spells. */
  function Concat(cs: seq<bytes>): bytes {
    if cs == [] then [] else cs[0] + Concat(cs[1..])
  }

  datatype Text = Text(node: Handle, lo: u32, hi: u32)

  function TextOf(l: Language, values: seq<bytes>, t: Handle): bytes {
    match GreenOf(t)
    case Token(token) => TokenText(l, values, token)
    case Node(_, _) => []
  }

  function Joined(l: Language, values: seq<bytes>, ts: seq<Handle>): bytes {
    if ts == [] then [] else TextOf(l, values, ts[0]) + Joined(l, values, ts[1..])
  }

  /** The tokens' recorded lengths are the lengths of their texts. */
  predicate Measured(l: Language, values: seq<bytes>, ts: seq<Handle>) {
    forall t | t in ts :: |TextOf(l, values, t)| == TextLen(GreenOf(t))
  }

  /** `text_range.intersect(token_range)`, relative to the token. */
  function Intersect(lo: int, hi: int, from: int, to: int): (r: Option<(nat, nat)>)
    requires lo <= hi && from <= to
    ensures r.None? <==> hi < from || to < lo
    ensures r.Some? ==>
              var (i, j) := r.value;
              && i <= j <= to - from
              && (i == lo - from || (lo <= from && i == 0)) && (j == hi - from || (hi >= to && j == to - from))
  {
    var start := if lo < from then from else lo;
    var end := if hi < to then hi else to;
    if end < start then None else Some((start - from, end - from))
  }

  /** The part of one token that lies in the range; a token that merely touches it gives an empty
      chunk. */
  function ChunkOf(l: Language, values: seq<bytes>, t: Handle, lo: int, hi: int): seq<bytes>
    requires |TextOf(l, values, t)| == TextLen(GreenOf(t)) && lo <= hi
  {
    match Intersect(lo, hi, StartOf(t), EndOf(t))
    case None => []
    case Some((i, j)) => [TextOf(l, values, t)[i..j]]
  }

  /** `tokens_with_ranges`. */
  function ChunksOf(l: Language, values: seq<bytes>, ts: seq<Handle>, lo: int, hi: int): seq<bytes>
    requires Measured(l, values, ts) && lo <= hi
  {
    if ts == [] then [] else ChunkOf(l, values, ts[0], lo, hi) + ChunksOf(l, values, ts[1..], lo, hi)
  }

  function Min(a: int, b: int): int { if a < b then a else b }

  // ----- the tokens of a node are the tokens its walk enters

  /** `descendants_with_tokens().filter_map(into_token)`. */
  function TokensEntered(w: seq<Preorder.Walk>): seq<Handle> {
    if w == [] then []
    else (if w[0].Enter? && !IsNode(w[0].at) then [w[0].at] else []) + TokensEntered(w[1..])
  }

  lemma TokensEnteredConcat(v: seq<Preorder.Walk>, w: seq<Preorder.Walk>)
    ensures TokensEntered(v + w) == TokensEntered(v) + TokensEntered(w)
  {
    MapJoinedConcat(x => TokensEntered(x), (x: Preorder.Walk) => if x.Enter? && !IsNode(x.at) then [x.at] else [], v, w);
  }

  lemma {:induction false} WalkEntersTokens(r: Handle)
    ensures TokensEntered(Preorder.Word(r, true)) == Tokens(r)
    decreases GreenOf(r), 1, 0
  {
    var enter, leave := [Preorder.Enter(r)], [Preorder.Leave(r)];
    var forest := Preorder.Forest(r, 0, true);
    assert TokensEntered(enter) == (if IsNode(r) then [] else [r]) by { assert enter[1..] == []; }
    assert TokensEntered(leave) == [] by { assert leave[1..] == []; }
    TokensEnteredConcat(enter + forest, leave);
    TokensEnteredConcat(enter, forest);
    if IsNode(r) {
      ForestEntersTokens(r, 0);
    }
  }

  lemma {:induction false} ForestEntersTokens(r: Handle, i: nat)
    requires i <= |Kids(r)|
    ensures TokensEntered(Preorder.Forest(r, i, true)) == TokensFrom(r, i)
    decreases GreenOf(r), 0, |Kids(r)| - i
  {
    if i < |Kids(r)| {
      WalkEntersTokens(ChildAt(r, i));
      ForestEntersTokens(r, i + 1);
      TokensEnteredConcat(Preorder.Word(ChildAt(r, i), true), Preorder.Forest(r, i + 1, true));
    }
  }

  // ----- what a text denotes

  ghost predicate Tiles(ts: seq<Handle>, from: int, to: int) {
    if ts == [] then from == to
    else StartOf(ts[0]) == from && from <= EndOf(ts[0]) && Tiles(ts[1..], EndOf(ts[0]), to)
  }

  lemma {:induction false} TilesConcat(a: seq<Handle>, b: seq<Handle>, from: int, mid: int, to: int)
    requires Tiles(a, from, mid) && Tiles(b, mid, to)
    ensures Tiles(a + b, from, to) && from <= mid
  {
    if a == [] {
      assert a + b == b;
    } else {
      assert (a + b)[1..] == a[1..] + b;
      TilesConcat(a[1..], b, EndOf(a[0]), mid, to);
    }
  }

  lemma {:induction false} TokensTile(r: Handle)
    requires Valid(r)
    ensures Tiles(Tokens(r), StartOf(r), EndOf(r))
    decreases GreenOf(r), 1, 0
  {
    if IsNode(r) {
      TokensTileFrom(r, 0);
    } else {
      assert [r][1..] == [];
    }
  }

  lemma {:induction false} TokensTileFrom(r: Handle, i: nat)
    requires Valid(r) && IsNode(r) && i <= |Kids(r)|
    ensures Tiles(TokensFrom(r, i), StartOf(r) + PrefixLen(Kids(r), i), EndOf(r))
    decreases GreenOf(r), 0, |Kids(r)| - i
  {
    if i < |Kids(r)| {
      var c := ChildAt(r, i);
      ChildIsValid(r, i);
      TokensTile(c);
      TokensTileFrom(r, i + 1);
      TilesConcat(Tokens(c), TokensFrom(r, i + 1), StartOf(c), EndOf(c), EndOf(r));
    }
  }

  /** The bytes of `s` at positions `lo` up to `hi`, which may lie outside it. */
  function Cut(s: bytes, lo: int, hi: int): bytes {
    if s == [] then [] else (if lo <= 0 < hi then [s[0]] else []) + Cut(s[1..], lo - 1, hi - 1)
  }

  lemma {:induction false} CutSum(a: bytes, b: bytes, lo: int, hi: int)
    ensures Cut(a + b, lo, hi) == Cut(a, lo, hi) + Cut(b, lo - |a|, hi - |a|)
    decreases |a|
  {
    if a == [] {
      assert a + b == b;
    } else {
      CutSum(a[1..], b, lo - 1, hi - 1);
      var first := if lo <= 0 < hi then [a[0]] else [];
      assert (a + b)[1..] == a[1..] + b;
      assert Cut(a + b, lo, hi) == first + Cut(a[1..] + b, lo - 1, hi - 1);
      Associate(first, Cut(a[1..], lo - 1, hi - 1), Cut(b, lo - |a|, hi - |a|));
    }
  }

  lemma {:induction false} CutNothing(s: bytes, lo: int, hi: int)
    requires hi <= 0 || lo >= |s| || hi <= lo
    ensures Cut(s, lo, hi) == []
  {
    if s != [] {
      CutNothing(s[1..], lo - 1, hi - 1);
    }
  }

  lemma {:induction false} CutSlice(s: bytes, lo: nat, hi: nat)
    requires lo <= hi <= |s|
    ensures Cut(s, lo, hi) == s[lo..hi]
  {
    if hi == 0 {
      CutNothing(s, lo, hi);
    } else if lo > 0 {
      CutSlice(s[1..], lo - 1, hi - 1);
    } else {
      CutSlice(s[1..], 0, hi - 1);
      CutClamped(s[1..], lo - 1, hi - 1, 0, hi - 1);
    }
  }

  /** Bounds outside the string do not matter. */
  lemma {:induction false} CutClamped(s: bytes, lo: int, hi: int, lo': int, hi': int)
    requires lo == lo' || (lo <= 0 && lo' <= 0)
    requires hi == hi' || (hi >= |s| && hi' >= |s|)
    ensures Cut(s, lo, hi) == Cut(s, lo', hi')
  {
    if s != [] {
      CutClamped(s[1..], lo - 1, hi - 1, lo' - 1, hi' - 1);
    }
  }

  lemma {:induction false} JoinedLen(l: Language, values: seq<bytes>, ts: seq<Handle>, from: int, to: int)
    requires Tiles(ts, from, to) && Measured(l, values, ts)
    ensures from <= to && |Joined(l, values, ts)| == to - from
  {
    if ts != [] {
      JoinedLen(l, values, ts[1..], EndOf(ts[0]), to);
    }
  }

  lemma SliceIsCut(s: bytes, lo: int, hi: int, i: nat, j: nat)
    requires i <= j <= |s|
    requires (i == lo || (lo <= 0 && i == 0)) && (j == hi || (hi >= |s| && j == |s|))
    ensures Cut(s, lo, hi) == s[i..j]
  {
    CutSlice(s, i, j);
    CutClamped(s, lo, hi, i, j);
  }

  lemma ChunkOfJoins(l: Language, values: seq<bytes>, t: Handle, lo: int, hi: int)
    requires |TextOf(l, values, t)| == TextLen(GreenOf(t)) && lo <= hi
    ensures Concat(ChunkOf(l, values, t, lo, hi)) == Cut(TextOf(l, values, t), lo - StartOf(t), hi - StartOf(t))
  {
    var text, from := TextOf(l, values, t), StartOf(t);
    match Intersect(lo, hi, from, EndOf(t))
    case None => CutNothing(text, lo - from, hi - from);
    case Some((i, j)) =>
      SliceIsCut(text, lo - from, hi - from, i, j);
      ConcatOne(text[i..j]);
  }

  lemma ConcatOne(c: bytes)
    ensures Concat([c]) == c
  {
    assert [c][1..] == [];
  }

  lemma ConcatAppend(a: seq<bytes>, b: seq<bytes>)
    ensures Concat(a + b) == Concat(a) + Concat(b)
  {
    MapJoinedConcat(cs => Concat(cs), c => c, a, b);
  }

  lemma {:induction false} ChunksJoin(l: Language, values: seq<bytes>, ts: seq<Handle>, from: int, to: int, lo: int, hi: int)
    requires Tiles(ts, from, to) && Measured(l, values, ts) && lo <= hi
    ensures Concat(ChunksOf(l, values, ts, lo, hi)) == Cut(Joined(l, values, ts), lo - from, hi - from)
  {
    if ts != [] {
      var t, rest := ts[0], ts[1..];
      var text, more := TextOf(l, values, t), Joined(l, values, rest);
      var head, tail := ChunkOf(l, values, t, lo, hi), ChunksOf(l, values, rest, lo, hi);
      assert from == StartOf(t) && EndOf(t) == from + |text| && Tiles(rest, EndOf(t), to);
      ChunkOfJoins(l, values, t, lo, hi);
      ChunksJoin(l, values, rest, EndOf(t), to, lo, hi);
      JoinStep(head, tail, text, more, lo - from, hi - from);
    }
  }

  lemma JoinStep(head: seq<bytes>, tail: seq<bytes>, text: bytes, more: bytes, lo: int, hi: int)
    requires Concat(head) == Cut(text, lo, hi) && Concat(tail) == Cut(more, lo - |text|, hi - |text|)
    ensures Concat(head + tail) == Cut(text + more, lo, hi)
  {
    ConcatAppend(head, tail);
    CutSum(text, more, lo, hi);
  }

  lemma ChunksJoinRange(l: Language, values: seq<bytes>, ts: seq<Handle>, from: int, to: int, lo: int, hi: int)
    requires Tiles(ts, from, to) && Measured(l, values, ts) && from <= lo <= hi <= to
    ensures |Joined(l, values, ts)| == to - from
    ensures Concat(ChunksOf(l, values, ts, lo, hi)) == Joined(l, values, ts)[lo - from..hi - from]
  {
    JoinedLen(l, values, ts, from, to);
    var all, i, j := Joined(l, values, ts), lo - from, hi - from;
    assert Cut(all, i, j) == all[i..j] by { CutSlice(all, i, j); }
    assert Concat(ChunksOf(l, values, ts, lo, hi)) == Cut(all, i, j) by { ChunksJoin(l, values, ts, from, to, lo, hi); }
  }

  ghost predicate ValidText(l: Language, values: seq<bytes>, t: Text) {
    && Valid(t.node) && Measured(l, values, Tokens(t.node))
    && StartOf(t.node) <= t.lo <= t.hi <= EndOf(t.node)
  }

  lemma JoinedLength(l: Language, values: seq<bytes>, t: Text)
    requires ValidText(l, values, t)
    ensures |Joined(l, values, Tokens(t.node))| == EndOf(t.node) - StartOf(t.node)
  {
    TokensTile(t.node);
    JoinedLen(l, values, Tokens(t.node), StartOf(t.node), EndOf(t.node));
  }

  function Denotes(l: Language, values: seq<bytes>, t: Text): bytes
    requires ValidText(l, values, t)
  {
    JoinedLength(l, values, t);
    Joined(l, values, Tokens(t.node))[t.lo - StartOf(t.node)..t.hi - StartOf(t.node)]
  }

  function Chunks(l: Language, values: seq<bytes>, t: Text): seq<bytes>
    requires ValidText(l, values, t)
  {
    ChunksOf(l, values, Tokens(t.node), t.lo, t.hi)
  }

  /** The chunks of a text concatenate to its range of the joined token texts. */
  lemma ChunksDenote(l: Language, values: seq<bytes>, t: Text)
    requires ValidText(l, values, t)
    ensures Concat(Chunks(l, values, t)) == Denotes(l, values, t)
    ensures |Denotes(l, values, t)| == t.hi - t.lo
  {
    TokensTile(t.node);
    ChunksJoinRange(l, values, Tokens(t.node), StartOf(t.node), EndOf(t.node), t.lo, t.hi);
  }

  // ----- the text of a whole node

  lemma {:induction false} LeafTotal(l: Language, values: seq<bytes>, e: Element)
    requires Known(l, values, e) && |Reference.Text(Abs(l, values, e))| < TWO32
    ensures TotalLen(Leaves(e)) == |Reference.Text(Abs(l, values, e))|
    decreases e, 0
  {
    match e
    case Token(t) =>
      assert [t][..0] == [];
      WrapSmall(|TokenText(l, values, t)|);
    case Node(_, cs) =>
      LeafTotalAll(l, values, cs);
  }

  lemma {:induction false} LeafTotalAll(l: Language, values: seq<bytes>, cs: seq<Element>)
    requires AllKnown(l, values, cs) && |Reference.TextAll(AbsAll(l, values, cs))| < TWO32
    ensures TotalLen(LeavesAll(cs)) == |Reference.TextAll(AbsAll(l, values, cs))|
    decreases cs, 1
  {
    if cs != [] {
      var n := |cs| - 1;
      assert cs == cs[..n] + [cs[n]];
      AbsAllAppend(l, values, cs[..n], cs[n]);
      var ts, t := AbsAll(l, values, cs[..n]), Abs(l, values, cs[n]);
      assert (ts + [t])[..n] == ts;
      LeafTotalAll(l, values, cs[..n]);
      LeafTotal(l, values, cs[n]);
      TotalLenConcat(LeavesAll(cs[..n]), Leaves(cs[n]));
    }
  }

  lemma JoinedConcat(l: Language, values: seq<bytes>, a: seq<Handle>, b: seq<Handle>)
    ensures Joined(l, values, a + b) == Joined(l, values, a) + Joined(l, values, b)
  {
    MapJoinedConcat(ts => Joined(l, values, ts), t => TextOf(l, values, t), a, b);
  }

  lemma {:induction false} JoinedIsText(l: Language, values: seq<bytes>, r: Handle)
    requires Known(l, values, GreenOf(r)) && |Reference.Text(Abs(l, values, GreenOf(r)))| < TWO32
    ensures Measured(l, values, Tokens(r))
    ensures Joined(l, values, Tokens(r)) == Reference.Text(Abs(l, values, GreenOf(r)))
    decreases GreenOf(r), 1, 0
  {
    if IsNode(r) {
      assert Kids(r)[0..] == Kids(r);
      JoinedIsTextFrom(l, values, r, 0);
    } else {
      assert [r][1..] == [];
      WrapSmall(|TextOf(l, values, r)|);
    }
  }

  lemma {:induction false} JoinedIsTextFrom(l: Language, values: seq<bytes>, r: Handle, i: nat)
    requires i <= |Kids(r)| && AllKnown(l, values, Kids(r))
    requires |Reference.TextAll(AbsAll(l, values, Kids(r)[i..]))| < TWO32
    ensures Measured(l, values, TokensFrom(r, i))
    ensures Joined(l, values, TokensFrom(r, i)) == Reference.TextAll(AbsAll(l, values, Kids(r)[i..]))
    decreases GreenOf(r), 0, |Kids(r)| - i
  {
    if i < |Kids(r)| {
      var t, ts := Abs(l, values, Kids(r)[i]), AbsAll(l, values, Kids(r)[i + 1..]);
      assert AbsAll(l, values, Kids(r)[i..]) == [t] + ts;
      Reference.TextConcat([t], ts);
      Reference.LeavesOfOne(t);
      JoinedIsText(l, values, ChildAt(r, i));
      JoinedIsTextFrom(l, values, r, i + 1);
      JoinedConcat(l, values, Tokens(ChildAt(r, i)), TokensFrom(r, i + 1));
    }
  }

  /** Whatever tree the builder made, as long as its text is shorter than 2^32: `text()` of its root
      is well formed and denotes the text of the plain tree the root stands for. */
  lemma RootTextIsText(l: Language, values: seq<bytes>, g: GreenNode)
    requires Good(l, values, g) && |Reference.Text(Abs(l, values, g))| < TWO32
    ensures ValidText(l, values, Text(Root(g), 0, TextLen(g)))
    ensures Denotes(l, values, Text(Root(g), 0, TextLen(g))) == Reference.Text(Abs(l, values, g))
  {
    RootIsExact(l, values, g);
    JoinedIsText(l, values, Root(g));
    JoinedLength(l, values, Text(Root(g), 0, TextLen(g)));
    assert StartOf(Root(g)) == 0 && EndOf(Root(g)) == TextLen(g);
    WholeText(l, values, Text(Root(g), 0, TextLen(g)));
  }

  lemma RootIsExact(l: Language, values: seq<bytes>, g: GreenNode)
    requires Good(l, values, g) && |Reference.Text(Abs(l, values, g))| < TWO32
    ensures Exact(g)
  {
    LeafTotal(l, values, g);
    SmallTreesAreExact(l.hasher, g);
  }

  lemma WholeText(l: Language, values: seq<bytes>, t: Text)
    requires ValidText(l, values, t) && t.lo == StartOf(t.node) && t.hi == EndOf(t.node)
    ensures Denotes(l, values, t) == Joined(l, values, Tokens(t.node))
  {
    JoinedLength(l, values, t);
  }

  // ----- slicing

  /** `slice`, in wrapping `u32` arithmetic; `None` is a failed assert. */
  function Slice(t: Text, start: u32, end: u32): Option<Text> {
    if start > end then None
    else
      var len := end - start;
      var lo := Wrap(t.lo + start);
      var hi := Wrap(lo + len);
      if lo > hi || lo < t.lo || hi > t.hi then None else Some(Text(t.node, lo, hi))
  }

  /** `slice` accepts exactly the ranges inside the text, wrap-around notwithstanding, and denotes
      that part of it. */
  lemma SliceDenotes(l: Language, values: seq<bytes>, t: Text, start: u32, end: u32)
    requires ValidText(l, values, t)
    ensures |Denotes(l, values, t)| == t.hi - t.lo
    ensures Slice(t, start, end).Some? <==> start <= end <= t.hi - t.lo
    ensures Slice(t, start, end).Some? ==>
              && ValidText(l, values, Slice(t, start, end).value)
              && Denotes(l, values, Slice(t, start, end).value) == Denotes(l, values, t)[start..end]
  {
    SliceAccepts(t, start, end);
    SubrangeDenotes(l, values, t, 0, 0);
    if start <= end <= t.hi - t.lo {
      SubrangeDenotes(l, values, t, start, end);
    }
  }

  lemma SliceAccepts(t: Text, start: u32, end: u32)
    requires t.lo <= t.hi
    ensures Slice(t, start, end) ==
      if start <= end <= t.hi - t.lo then Some(Text(t.node, t.lo + start, t.lo + end)) else None
  {
    if start <= end {
      SliceArithmetic(t.lo, t.hi, start, end);
    }
  }

  lemma SubrangeDenotes(l: Language, values: seq<bytes>, t: Text, start: nat, end: nat)
    requires ValidText(l, values, t) && start <= end <= t.hi - t.lo
    ensures var s := Text(t.node, t.lo + start, t.lo + end);
      ValidText(l, values, s) && |Denotes(l, values, t)| == t.hi - t.lo
      && Denotes(l, values, s) == Denotes(l, values, t)[start..end]
  {
    JoinedLength(l, values, t);
    var all, from := Joined(l, values, Tokens(t.node)), StartOf(t.node);
    var s := Text(t.node, t.lo + start, t.lo + end);
    assert ValidText(l, values, s);
    assert Denotes(l, values, t) == all[t.lo - from..t.hi - from];
    assert Denotes(l, values, s) == all[t.lo - from + start..t.lo - from + end];
    SliceOfSlice(all, t.lo - from, t.hi - from, start, end);
  }

  lemma SliceOfSlice(s: bytes, a: nat, b: nat, c: nat, d: nat)
    requires a <= b <= |s| && c <= d <= b - a
    ensures s[a..b][c..d] == s[a + c..a + d]
  {
    var t := s[a..b];
    assert |t[c..d]| == d - c;
    forall i | 0 <= i < d - c ensures t[c..d][i] == s[a + c..a + d][i] {
      assert t[c..d][i] == t[c + i] == s[a + (c + i)];
    }
  }

  lemma SliceArithmetic(lo: u32, hi: u32, start: u32, end: u32)
    requires lo <= hi && start <= end
    ensures var s := Wrap(lo + start);
            var e := Wrap(s + (end - start));
      (s <= e && s >= lo && e <= hi <==> end <= hi - lo)
      && (end <= hi - lo ==> s == lo + start && e == lo + end)
  {
  }

  /** Slices of slices compose. */
  lemma SlicesCompose(t: Text, a: u32, b: u32, c: u32, d: u32)
    requires t.lo <= t.hi && Slice(t, a, b).Some? && Slice(Slice(t, a, b).value, c, d).Some?
    ensures a + d < TWO32 && Slice(t, a + c, a + d) == Slice(Slice(t, a, b).value, c, d)
  {
    SliceAccepts(t, a, b);
    SliceAccepts(Slice(t, a, b).value, c, d);
    SliceAccepts(t, a + c, a + d);
  }

  // ----- comparing

  lemma {:induction false} ConcatFrom(cs: seq<bytes>, i: nat)
    requires i < |cs|
    ensures Concat(cs[i..]) == cs[i] + Concat(cs[i + 1..])
  {
    assert cs[i..][1..] == cs[i + 1..];
  }

  lemma {:induction false} ConcatSplit(cs: seq<bytes>, i: nat)
    requires i <= |cs|
    ensures Concat(cs) == Concat(cs[..i]) + Concat(cs[i..])
  {
    if i == 0 {
      assert cs[..0] == [] && cs[0..] == cs;
    } else {
      ConcatSplit(cs[1..], i - 1);
      assert cs[..i][1..] == cs[1..][..i - 1] && cs[i..] == cs[1..][i - 1..];
    }
  }

  lemma ConcatStep(cs: seq<bytes>, i: nat)
    requires i < |cs|
    ensures Concat(cs[..i + 1]) == Concat(cs[..i]) + cs[i]
  {
    ConcatSplit(cs[..i + 1], i);
    assert cs[..i + 1][..i] == cs[..i] && cs[..i + 1][i..] == [cs[i]];
    assert [cs[i]][1..] == [];
  }

  /** Of the text of `cs`, `p` has been compared; `c` is the chunk in hand and `i` chunks have been
      taken. */
  ghost predicate InHand(cs: seq<bytes>, p: bytes, c: bytes, i: nat)
  {
    i <= |cs| && Concat(cs) == p + (c + Concat(cs[i..]))
  }

  /** The inner loop of `zip_texts`: moves on from empty chunks. */
  method SkipEmpty(cs: seq<bytes>, c: bytes, i: nat, ghost p: bytes) returns (r: Option<bytes>, next: nat)
    requires InHand(cs, p, c, i)
    ensures i <= next <= |cs|
    ensures r.None? ==> next == |cs| && Concat(cs) == p
    ensures r.Some? ==> InHand(cs, p, r.value, next) && r.value != [] && (next == i ==> r.value == c)
  {
    var x := c;
    next := i;
    while x == []
      invariant i <= next <= |cs| && InHand(cs, p, x, next) && (next == i ==> x == c)
      decreases |cs| - next
    {
      if next == |cs| {
        return None, next;
      }
      ConcatFrom(cs, next);
      x, next := cs[next], next + 1;
    }
    r := Some(x);
  }

  predicate PrefixRelated(a: bytes, b: bytes) {
    a <= b || b <= a
  }

  lemma DivergenceStays(xs: seq<bytes>, x: bytes, i: nat, ys: seq<bytes>, y: bytes, j: nat, p: bytes)
    requires InHand(xs, p, x, i) && InHand(ys, p, y, j)
    requires !PrefixRelated(x, y)
    ensures !PrefixRelated(Concat(xs), Concat(ys))
  {
    var k :| 0 <= k < |x| && k < |y| && x[k] != y[k];
    assert Concat(xs)[|p| + k] == x[k] && Concat(ys)[|p| + k] == y[k];
  }

  lemma AdvanceBoth(xs: seq<bytes>, x: bytes, i: nat, ys: seq<bytes>, y: bytes, j: nat, p: bytes, n: nat)
    requires InHand(xs, p, x, i) && InHand(ys, p, y, j)
    requires PrefixRelated(x, y) && n == Min(|x|, |y|)
    ensures InHand(xs, p + x[..n], x[n..], i)
    ensures InHand(ys, p + x[..n], y[n..], j)
  {
    Advance(p, x, Concat(xs[i..]), n);
    Advance(p, y, Concat(ys[j..]), n);
    assert x[..n] == y[..n];
  }

  lemma Advance(p: bytes, x: bytes, a: bytes, n: nat)
    requires n <= |x|
    ensures (p + x[..n]) + (x[n..] + a) == p + (x + a)
  {
    var rest := x[n..];
    assert x == x[..n] + rest;
    assert (p + x[..n]) + (rest + a) == p + ((x[..n] + rest) + a);
  }

  /** `xs` is used up and its text a prefix of that of `ys`, of which the chunks from the `j`-th on
      hold no more than the rest. */
  ghost predicate RanOut(xs: seq<bytes>, i: nat, ys: seq<bytes>, j: nat)
    requires j <= |ys|
  {
    i == |xs| && Concat(xs) <= Concat(ys) && |Concat(xs)| + |Concat(ys[j..])| <= |Concat(ys)|
  }

  /** `zip_texts`, over two lists of chunks with `i` and `j` the number each iterator has yielded.
      It reports a difference exactly when neither text is a prefix of the other; otherwise one of
      them has run out (the half-used chunk of the other one is lost). */
  method ZipTexts(xs: seq<bytes>, ys: seq<bytes>) returns (differ: bool, i: nat, j: nat)
    ensures i <= |xs| && j <= |ys|
    ensures differ <==> !PrefixRelated(Concat(xs), Concat(ys))
    ensures !differ ==> RanOut(xs, i, ys, j) || RanOut(ys, j, xs, i)
  {
    assert xs[0..] == xs && ys[0..] == ys;
    if xs == [] {
      return false, 0, 0;
    }
    var x := xs[0];
    i := 1;
    ConcatFrom(xs, 0);
    if ys == [] {
      return false, 1, 0;
    }
    var y := ys[0];
    j := 1;
    ConcatFrom(ys, 0);
    ghost var p: bytes := [];
    while true
      invariant InHand(xs, p, x, i) && InHand(ys, p, y, j)
      decreases |xs| - i + |ys| - j, |x| + |y|
    {
      var nextX, i' := SkipEmpty(xs, x, i, p);
      if nextX.None? {
        return false, i', j;
      }
      var nextY, j' := SkipEmpty(ys, y, j, p);
      if nextY.None? {
        return false, i', j';
      }
      x, y, i, j := nextX.value, nextY.value, i', j';
      if !(y <= x || x <= y) {
        DivergenceStays(xs, x, i, ys, y, j, p);
        return true, i, j;
      }
      var advance := Min(|x|, |y|);
      AdvanceBoth(xs, x, i, ys, y, j, p, advance);
      p := p + x[..advance];
      x, y := x[advance..], y[advance..];
    }
  }

  /** `lhs.all(|it| it.1.is_empty())`. */
  method AllEmpty(cs: seq<bytes>, i: nat) returns (r: bool)
    requires i <= |cs|
    ensures r <==> Concat(cs[i..]) == []
  {
    var k := i;
    while k < |cs|
      invariant i <= k <= |cs| && Concat(cs[i..]) == Concat(cs[k..])
    {
      ConcatFrom(cs, k);
      if cs[k] != [] {
        assert |cs[k]| > 0;
        return false;
      }
      k := k + 1;
    }
    return true;
  }

  /** `SyntaxText == SyntaxText` holds exactly when the two texts denote the same bytes, however
      each is split over tokens, empty ones included. */
  method TextsEqual(l: Language, values: seq<bytes>, s: Text, l': Language, values': seq<bytes>, t: Text)
    returns (eq: bool)
    requires ValidText(l, values, s) && ValidText(l', values', t)
    ensures eq <==> Denotes(l, values, s) == Denotes(l', values', t)
  {
    ChunksDenote(l, values, s);
    ChunksDenote(l', values', t);
    if s.hi - s.lo != t.hi - t.lo {
      return false;
    }
    var xs, ys := Chunks(l, values, s), Chunks(l', values', t);
    var differ, i, j := ZipTexts(xs, ys);
    if differ {
      return false;
    }
    eq := AllEmpty(xs, i);
    if eq {
      eq := AllEmpty(ys, j);
    }
  }

  /** `SyntaxText == str`. */
  method TextEqualsStr(l: Language, values: seq<bytes>, t: Text, s: bytes) returns (eq: bool)
    requires ValidText(l, values, t)
    ensures eq <==> Denotes(l, values, t) == s
  {
    ChunksDenote(l, values, t);
    eq := ConcatEquals(Chunks(l, values, t), s);
  }

  method ConcatEquals(cs: seq<bytes>, s: bytes) returns (eq: bool)
    ensures eq <==> Concat(cs) == s
  {
    var rhs := s;
    assert cs[0..] == cs;
    for k := 0 to |cs|
      invariant Concat(cs) == s <==> Concat(cs[k..]) == rhs
    {
      var chunk := cs[k];
      ConcatFrom(cs, k);
      if !(chunk <= rhs) {
        return false;
      }
      assert rhs == chunk + rhs[|chunk|..];
      rhs := rhs[|chunk|..];
    }
    eq := rhs == [];
  }

  // ----- characters

  /** A continuation byte of UTF-8. */
  predicate Continues(b: byte) {
    0x80 <= b < 0xC0
  }

  /** How a character is encoded: a leading byte, then continuation bytes. */
  predicate Encodes(p: bytes) {
    p != [] && !Continues(p[0]) && forall k | 1 <= k < |p| :: Continues(p[k])
  }

  /** A `str` holds whole characters. */
  predicate IsStr(s: bytes) {
    s != [] ==> !Continues(s[0])
  }

  predicate AllStr(cs: seq<bytes>) {
    forall c | c in cs :: IsStr(c)
  }

  /** `k` is not inside a character of `s`. */
  predicate Boundary(s: bytes, k: int) {
    0 < k < |s| ==> !Continues(s[k])
  }

  lemma BoundaryOfSum(a: bytes, b: bytes, k: int)
    requires IsStr(b)
    ensures Boundary(a + b, k) <==> Boundary(a, k) && Boundary(b, k - |a|)
  {
    if |a| <= k < |a| + |b| {
      assert (a + b)[k] == b[k - |a|];
    }
  }

  lemma {:induction false} ConcatIsStr(cs: seq<bytes>)
    requires AllStr(cs)
    ensures IsStr(Concat(cs))
    decreases |cs|
  {
    if cs != [] {
      assert IsStr(cs[0]);
      ConcatIsStr(cs[1..]);
    }
  }

  /** The slicing of one token that `try_fold_chunks` does; it panics inside a character. */
  predicate ChunkCuts(l: Language, values: seq<bytes>, t: Handle, lo: int, hi: int)
    requires |TextOf(l, values, t)| == TextLen(GreenOf(t)) && lo <= hi
  {
    match Intersect(lo, hi, StartOf(t), EndOf(t))
    case None => true
    case Some((i, j)) => Boundary(TextOf(l, values, t), i) && Boundary(TextOf(l, values, t), j)
  }

  predicate StrTokens(l: Language, values: seq<bytes>, ts: seq<Handle>) {
    forall t | t in ts :: IsStr(TextOf(l, values, t))
  }

  lemma {:induction false} JoinedIsStr(l: Language, values: seq<bytes>, ts: seq<Handle>)
    requires StrTokens(l, values, ts)
    ensures IsStr(Joined(l, values, ts))
    decreases |ts|
  {
    if ts != [] {
      JoinedIsStr(l, values, ts[1..]);
    }
  }

  /** No slicing panics while `tokens_with_ranges` is folded over. */
  predicate AllCut(l: Language, values: seq<bytes>, ts: seq<Handle>, lo: int, hi: int)
    requires Measured(l, values, ts) && lo <= hi
  {
    ts == [] || (ChunkCuts(l, values, ts[0], lo, hi) && AllCut(l, values, ts[1..], lo, hi))
  }

  lemma ChunkCutsIff(l: Language, values: seq<bytes>, t: Handle, lo: int, hi: int)
    requires |TextOf(l, values, t)| == TextLen(GreenOf(t)) && IsStr(TextOf(l, values, t)) && lo <= hi
    ensures ChunkCuts(l, values, t, lo, hi) <==>
            Boundary(TextOf(l, values, t), lo - StartOf(t)) && Boundary(TextOf(l, values, t), hi - StartOf(t))
    ensures ChunkCuts(l, values, t, lo, hi) ==> AllStr(ChunkOf(l, values, t, lo, hi))
  {
  }

  lemma {:induction false} AllCutIff(l: Language, values: seq<bytes>, ts: seq<Handle>, from: int, to: int, lo: int, hi: int)
    requires Tiles(ts, from, to) && Measured(l, values, ts) && StrTokens(l, values, ts) && lo <= hi
    ensures AllCut(l, values, ts, lo, hi) <==>
            Boundary(Joined(l, values, ts), lo - from) && Boundary(Joined(l, values, ts), hi - from)
    decreases |ts|
  {
    if ts != [] {
      var t, rest := ts[0], ts[1..];
      assert from == StartOf(t) && EndOf(t) == from + |TextOf(l, values, t)|;
      ChunkCutsIff(l, values, t, lo, hi);
      AllCutIff(l, values, rest, EndOf(t), to, lo, hi);
      BoundaryOfJoined(l, values, ts, lo - from);
      BoundaryOfJoined(l, values, ts, hi - from);
    }
  }

  lemma BoundaryOfJoined(l: Language, values: seq<bytes>, ts: seq<Handle>, k: int)
    requires StrTokens(l, values, ts) && ts != []
    ensures Boundary(Joined(l, values, ts), k) <==>
            Boundary(TextOf(l, values, ts[0]), k) && Boundary(Joined(l, values, ts[1..]), k - |TextOf(l, values, ts[0])|)
  {
    JoinedIsStr(l, values, ts[1..]);
    BoundaryOfSum(TextOf(l, values, ts[0]), Joined(l, values, ts[1..]), k);
  }

  lemma {:induction false} CutChunksAreStrs(l: Language, values: seq<bytes>, ts: seq<Handle>, lo: int, hi: int)
    requires Measured(l, values, ts) && StrTokens(l, values, ts) && lo <= hi && AllCut(l, values, ts, lo, hi)
    ensures AllStr(ChunksOf(l, values, ts, lo, hi))
    decreases |ts|
  {
    if ts != [] {
      ChunkCutsIff(l, values, ts[0], lo, hi);
      CutChunksAreStrs(l, values, ts[1..], lo, hi);
    }
  }

  /** However the tokens split it, a text can be folded over without a panic exactly when neither
      end of it is inside a character of its node's text; every chunk is then a `str`. */
  lemma FoldsIffOnCharacters(l: Language, values: seq<bytes>, t: Text)
    requires ValidText(l, values, t) && StrTokens(l, values, Tokens(t.node))
    ensures var all, from := Joined(l, values, Tokens(t.node)), StartOf(t.node);
      AllCut(l, values, Tokens(t.node), t.lo, t.hi) <==> Boundary(all, t.lo - from) && Boundary(all, t.hi - from)
    ensures AllCut(l, values, Tokens(t.node), t.lo, t.hi) ==> AllStr(Chunks(l, values, t))
  {
    TokensTile(t.node);
    AllCutIff(l, values, Tokens(t.node), StartOf(t.node), EndOf(t.node), t.lo, t.hi);
    if AllCut(l, values, Tokens(t.node), t.lo, t.hi) {
      CutChunksAreStrs(l, values, Tokens(t.node), t.lo, t.hi);
    }
  }

  // ----- searching

  predicate OccursAt(s: bytes, p: bytes, i: int) {
    0 <= i <= |s| - |p| && s[i..i + |p|] == p
  }

  ghost predicate NoneBefore(s: bytes, p: bytes, end: int) {
    forall i | 0 <= i < end :: !OccursAt(s, p, i)
  }

  /** `str::find` of a character encoded as `p`. */
  method FindIn(s: bytes, p: bytes) returns (r: Option<nat>)
    requires Encodes(p)
    ensures r.None? ==> NoneBefore(s, p, |s|)
    ensures r.Some? ==> OccursAt(s, p, r.value) && NoneBefore(s, p, r.value)
  {
    var k := 0;
    while k + |p| <= |s|
      invariant NoneBefore(s, p, k)
    {
      if s[k..k + |p|] == p {
        return Some(k);
      }
      k := k + 1;
    }
    r := None;
  }

  /** The whole text around its `k`-th chunk. */
  lemma ChunkInPlace(cs: seq<bytes>, k: nat)
    requires k < |cs|
    ensures Concat(cs[..k + 1]) == Concat(cs[..k]) + cs[k]
    ensures Concat(cs) == Concat(cs[..k]) + cs[k] + Concat(cs[k + 1..])
  {
    ConcatStep(cs, k);
    ConcatSplit(cs, k + 1);
  }

  /** An occurrence that starts in a chunk also ends in it: the next byte of the text is a leading
      one. */
  lemma NoneStraddles(before: bytes, chunk: bytes, after: bytes, p: bytes, i: int)
    requires Encodes(p) && IsStr(after) && |before| <= i < |before| + |chunk|
    ensures OccursAt(before + chunk + after, p, i) <==> OccursAt(chunk, p, i - |before|)
  {
    var s, end := before + chunk + after, |before| + |chunk|;
    if i + |p| <= end {
      SameSlice(before, chunk, after, i, i + |p|);
    } else if i + |p| <= |s| {
      var cut := s[i..i + |p|];
      assert cut[end - i] == s[end] == after[0];
      assert cut[end - i] != p[end - i];
    }
  }

  lemma SameSlice(before: bytes, chunk: bytes, after: bytes, i: int, j: int)
    requires |before| <= i <= j <= |before| + |chunk|
    ensures (before + chunk + after)[i..j] == chunk[i - |before|..j - |before|]
  {
  }

  /** `acc + TextSize::of(..)`, which does not wrap in a text shorter than 2^32. */
  method AddSize(acc: u32, n: nat) returns (sum: u32)
    requires acc + n < TWO32
    ensures sum == acc + n
  {
    WrapSmall(n);
    WrapSmall(acc + n);
    sum := Wrap(acc + Wrap(n));
  }

  /** What the search of one chunk says about the whole text. */
  lemma SearchedChunk(cs: seq<bytes>, k: nat, p: bytes, pos: nat)
    requires AllStr(cs) && Encodes(p) && k < |cs| && pos <= |cs[k]|
    requires NoneBefore(Concat(cs), p, |Concat(cs[..k])|) && NoneBefore(cs[k], p, pos)
    ensures NoneBefore(Concat(cs), p, |Concat(cs[..k])| + pos)
    ensures OccursAt(cs[k], p, pos) ==> OccursAt(Concat(cs), p, |Concat(cs[..k])| + pos)
  {
    var before, chunk, after := Concat(cs[..k]), cs[k], Concat(cs[k + 1..]);
    ChunkInPlace(cs, k);
    ConcatIsStr(cs[k + 1..]);
    forall i | |before| <= i < |before| + pos ensures !OccursAt(before + chunk + after, p, i) {
      NoneStraddles(before, chunk, after, p, i);
    }
    if OccursAt(chunk, p, pos) {
      NoneStraddles(before, chunk, after, p, |before| + pos);
    }
  }

  lemma ChunkLengths(cs: seq<bytes>, k: nat)
    requires k < |cs|
    ensures |Concat(cs[..k + 1])| == |Concat(cs[..k])| + |cs[k]| <= |Concat(cs)|
  {
    ChunkInPlace(cs, k);
  }

  /** `find_char`, of any character: the first place at which it occurs in the text as a whole. */
  method FindChar(cs: seq<bytes>, p: bytes) returns (r: Option<u32>)
    requires |Concat(cs)| < TWO32 && AllStr(cs) && Encodes(p)
    ensures r.None? ==> forall i :: !OccursAt(Concat(cs), p, i)
    ensures r.Some? ==> OccursAt(Concat(cs), p, r.value) && NoneBefore(Concat(cs), p, r.value)
  {
    var acc: u32 := 0;
    for k := 0 to |cs|
      invariant acc == |Concat(cs[..k])|
      invariant NoneBefore(Concat(cs), p, acc)
    {
      var chunk := cs[k];
      ChunkLengths(cs, k);
      var pos := FindIn(chunk, p);
      if pos.Some? {
        SearchedChunk(cs, k, p, pos.value);
        var at := AddSize(acc, pos.value);
        return Some(at);
      }
      SearchedChunk(cs, k, p, |chunk|);
      acc := AddSize(acc, |chunk|);
    }
    assert cs[..|cs|] == cs;
    r := None;
  }

  /** `p` is the whole character that begins at `i` in `s`. */
  predicate CharIs(s: bytes, i: int, p: bytes) {
    Encodes(p) && OccursAt(s, p, i) && (i + |p| < |s| ==> !Continues(s[i + |p|]))
  }

  /** `chars().next().unwrap()`. */
  method FirstChar(s: bytes) returns (p: bytes)
    requires s != [] && IsStr(s)
    ensures CharIs(s, 0, p)
  {
    var n := 1;
    while n < |s| && Continues(s[n])
      invariant 1 <= n <= |s| && forall k | 1 <= k < n :: Continues(s[k])
    {
      n := n + 1;
    }
    p := s[..n];
  }

  lemma CharInPlace(before: bytes, chunk: bytes, after: bytes, i: int, p: bytes)
    requires IsStr(after) && |before| <= i < |before| + |chunk|
    requires CharIs(chunk[i - |before|..], 0, p)
    ensures CharIs(before + chunk + after, i, p)
  {
    var s, rest := before + chunk + after, chunk[i - |before|..];
    SameSlice(before, chunk, after, i, i + |p|);
    assert rest[0..|p|] == chunk[i - |before|..i - |before| + |p|];
    if i + |p| < |s| {
      assert s[i + |p|] == if |p| < |rest| then rest[|p|] else after[0];
    }
  }

  lemma OffsetInChunk(cs: seq<bytes>, k: nat, offset: nat)
    requires AllStr(cs) && k < |cs| && |Concat(cs[..k])| <= offset < |Concat(cs[..k])| + |cs[k]|
    ensures offset < |Concat(cs)|
    ensures Boundary(Concat(cs), offset) <==> Boundary(cs[k], offset - |Concat(cs[..k])|)
    ensures Boundary(Concat(cs), offset) ==> IsStr(cs[k][offset - |Concat(cs[..k])|..])
  {
    ChunkInPlace(cs, k);
    assert IsStr(cs[k]);
    assert Concat(cs)[offset] == cs[k][offset - |Concat(cs[..k])|];
  }

  lemma CharInChunk(cs: seq<bytes>, k: nat, offset: nat, p: bytes)
    requires AllStr(cs) && k < |cs| && |Concat(cs[..k])| <= offset < |Concat(cs[..k])| + |cs[k]|
    requires CharIs(cs[k][offset - |Concat(cs[..k])|..], 0, p)
    ensures CharIs(Concat(cs), offset, p)
  {
    ChunkInPlace(cs, k);
    ConcatIsStr(cs[k + 1..]);
    CharInPlace(Concat(cs[..k]), cs[k], Concat(cs[k + 1..]), offset, p);
  }

  /** `char_at`: the character that begins at `offset` in the text as a whole, or nothing past its
      end. The documentation promises the first character at or after `offset`; the code panics
      (`None`) exactly when `offset` is inside a character. */
  method CharAt(cs: seq<bytes>, offset: u32) returns (r: Option<Option<bytes>>)
    requires |Concat(cs)| < TWO32 && AllStr(cs)
    ensures r.None? <==> offset < |Concat(cs)| && !Boundary(Concat(cs), offset)
    ensures r == Some(None) <==> offset >= |Concat(cs)|
    ensures r.Some? && r.value.Some? ==> CharIs(Concat(cs), offset, r.value.value)
  {
    var start: u32 := 0;
    for k := 0 to |cs|
      invariant start == |Concat(cs[..k])| <= offset
    {
      var chunk := cs[k];
      ChunkLengths(cs, k);
      var end := AddSize(start, |chunk|);
      if start <= offset && offset < end {
        OffsetInChunk(cs, k, offset);
        if !Boundary(chunk, offset - start) {
          return None;
        }
        var p := FirstChar(chunk[offset - start..]);
        CharInChunk(cs, k, offset, p);
        return Some(Some(p));
      }
      start := end;
    }
    assert cs[..|cs|] == cs;
    r := Some(None);
  }

  /** Every character of more than one byte has offsets inside it, at which `char_at` panics. */
  lemma InsideACharacter(s: bytes, i: int, p: bytes, k: int)
    requires CharIs(s, i, p) && 0 < k < |p|
    ensures i + k < |s| && !Boundary(s, i + k)
  {
    assert s[i..i + |p|][k] == s[i + k];
  }
}

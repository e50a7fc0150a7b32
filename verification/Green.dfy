/** The immutable green tree: tokens, nodes with a length-and-hash head, and node construction. */
module Green {
  import opened Base
  import opened Interning

  datatype GreenToken = GreenToken(kind: u32, key: Option<TokenKey>, len: u32)

  datatype Head = Head(kind: u32, textLen: u32, childHash: u32)

  datatype Element = Node(head: Head, children: seq<Element>) | Token(token: GreenToken)

  type GreenNode = e: Element | e.Node? witness Node(Head(0, 0, 0), [])

  /** What a child feeds to the hasher: a node its head only, a token all of its data. */
  datatype Digest = NodeDigest(head: Head) | TokenDigest(token: GreenToken)

  /** An arbitrary streaming hasher; every theorem below holds for all of them. */
  datatype Hasher = Hasher(init: nat, write: (nat, Digest) -> nat, finish: nat -> nat)

  function TextLen(e: Element): u32 {
    match e
    case Node(head, _) => head.textLen
    case Token(token) => token.len
  }

  function KindOf(e: Element): u32 {
    match e
    case Node(head, _) => head.kind
    case Token(token) => token.kind
  }

  function DigestOf(e: Element): Digest {
    match e
    case Node(head, _) => NodeDigest(head)
    case Token(token) => TokenDigest(token)
  }

  function SumLen(cs: seq<Element>): u32 {
    if cs == [] then 0 else Wrap(SumLen(cs[..|cs| - 1]) + TextLen(cs[|cs| - 1]))
  }

  function HashState(h: Hasher, cs: seq<Element>): nat {
    if cs == [] then h.init else h.write(HashState(h, cs[..|cs| - 1]), DigestOf(cs[|cs| - 1]))
  }

  function ChildHash(h: Hasher, cs: seq<Element>): u32 {
    Wrap(h.finish(HashState(h, cs)))
  }

  function HeadOf(h: Hasher, kind: u32, cs: seq<Element>): Head {
    Head(kind, SumLen(cs), ChildHash(h, cs))
  }

  function MakeNode(h: Hasher, kind: u32, cs: seq<Element>): GreenNode {
    Node(HeadOf(h, kind, cs), cs)
  }

  /** The length-and-hash pass over a list of children. */
  method Summarise(h: Hasher, cs: seq<Element>) returns (textLen: u32, childHash: u32)
    ensures textLen == SumLen(cs) && childHash == ChildHash(h, cs)
  {
    var state := h.init;
    textLen := 0;
    for i := 0 to |cs|
      invariant textLen == SumLen(cs[..i]) && state == HashState(h, cs[..i])
    {
      assert cs[..i + 1][..i] == cs[..i];
      textLen := Wrap(textLen + TextLen(cs[i]));
      state := h.write(state, DigestOf(cs[i]));
    }
    assert cs[..|cs|] == cs;
    childHash := Wrap(h.finish(state));
  }

  method NewGreenNode(h: Hasher, kind: u32, cs: seq<Element>) returns (node: GreenNode)
    ensures node == MakeNode(h, kind, cs)
  {
    var textLen, childHash := Summarise(h, cs);
    node := Node(Head(kind, textLen, childHash), cs);
  }

  /** The head invariant, at every node of the tree. */
  ghost predicate WellHeaded(h: Hasher, e: Element) {
    e.Node? ==> e.head == HeadOf(h, e.head.kind, e.children) && AllHeaded(h, e.children)
  }

  ghost predicate AllHeaded(h: Hasher, cs: seq<Element>) {
    forall c | c in cs :: WellHeaded(h, c)
  }

  function Leaves(e: Element): seq<GreenToken> {
    match e
    case Node(_, cs) => LeavesAll(cs)
    case Token(token) => [token]
  }

  function LeavesAll(cs: seq<Element>): seq<GreenToken> {
    if cs == [] then [] else LeavesAll(cs[..|cs| - 1]) + Leaves(cs[|cs| - 1])
  }

  function TotalLen(ts: seq<GreenToken>): nat {
    if ts == [] then 0 else TotalLen(ts[..|ts| - 1]) + ts[|ts| - 1].len
  }

  lemma TotalLenConcat(a: seq<GreenToken>, b: seq<GreenToken>)
    ensures TotalLen(a + b) == TotalLen(a) + TotalLen(b)
  {
    SummedMapConcat(ts => TotalLen(ts), (t: GreenToken) => t.len, a, b);
  }

  /** Whatever the hasher, a head's length is the total length of the leaves below it, modulo 2^32. */
  lemma {:induction false} HeadLengthIsLeafTotal(h: Hasher, e: Element)
    requires WellHeaded(h, e)
    ensures TextLen(e) == Wrap(TotalLen(Leaves(e)))
    decreases e, 0
  {
    match e
    case Node(head, cs) =>
      SumLenIsLeafTotal(h, cs);
    case Token(token) =>
      assert [token][..0] == [];
  }

  lemma {:induction false} SumLenIsLeafTotal(h: Hasher, cs: seq<Element>)
    requires AllHeaded(h, cs)
    ensures SumLen(cs) == Wrap(TotalLen(LeavesAll(cs)))
    decreases cs, 1
  {
    if cs != [] {
      var front, last := cs[..|cs| - 1], cs[|cs| - 1];
      var a, b := TotalLen(LeavesAll(front)), TotalLen(Leaves(last));
      assert SumLen(front) == Wrap(a) by { SumLenIsLeafTotal(h, front); }
      assert TextLen(last) == Wrap(b) by { HeadLengthIsLeafTotal(h, last); }
      assert TotalLen(LeavesAll(cs)) == a + b by { TotalLenConcat(LeavesAll(front), Leaves(last)); }
      assert Wrap(Wrap(a) + Wrap(b)) == Wrap(a + b) by { WrapAdd(a, b); }
    }
  }

  /** Plain, unbounded lengths of a prefix of the children. */
  function PrefixLen(cs: seq<Element>, n: nat): nat
    requires n <= |cs|
  {
    if n == 0 then 0 else PrefixLen(cs, n - 1) + TextLen(cs[n - 1])
  }

  /** No length anywhere in the tree has wrapped: each node's length is the sum of its children's. */
  ghost predicate Exact(e: Element) {
    e.Node? ==> e.head.textLen == PrefixLen(e.children, |e.children|) && forall c | c in e.children :: Exact(c)
  }

  lemma {:induction false} PrefixLenMonotone(cs: seq<Element>, i: nat, j: nat)
    requires i <= j <= |cs|
    ensures PrefixLen(cs, i) <= PrefixLen(cs, j)
    ensures i < j ==> PrefixLen(cs, i) + TextLen(cs[i]) <= PrefixLen(cs, j)
  {
    if i < j {
      PrefixLenMonotone(cs, i, j - 1);
    }
  }

  lemma {:induction false} PrefixLenOfPrefix(cs: seq<Element>, m: nat, n: nat)
    requires n <= m <= |cs|
    ensures PrefixLen(cs[..m], n) == PrefixLen(cs, n)
  {
    if n > 0 {
      PrefixLenOfPrefix(cs, m, n - 1);
    }
  }

  /** A well-headed tree whose leaves total less than 2^32 has no wrapped length in it. */
  lemma {:induction false} SmallTreesAreExact(h: Hasher, e: Element)
    requires WellHeaded(h, e) && TotalLen(Leaves(e)) < TWO32
    ensures Exact(e)
    decreases e, 0
  {
    if e.Node? {
      SmallForestsAreExact(h, e.children);
    }
  }

  lemma {:induction false} SmallForestsAreExact(h: Hasher, cs: seq<Element>)
    requires AllHeaded(h, cs) && TotalLen(LeavesAll(cs)) < TWO32
    ensures SumLen(cs) == PrefixLen(cs, |cs|) && forall c | c in cs :: Exact(c)
    decreases cs, 1
  {
    if cs != [] {
      var n := |cs| - 1;
      var front, last := cs[..n], cs[n];
      var a, b := TotalLen(LeavesAll(front)), TotalLen(Leaves(last));
      assert a + b < TWO32 by { TotalLenConcat(LeavesAll(front), Leaves(last)); }
      SmallForestsAreExact(h, front);
      SmallTreesAreExact(h, last);
      assert SumLen(front) == a by { SumLenIsLeafTotal(h, front); WrapSmall(a); }
      assert TextLen(last) == b by { HeadLengthIsLeafTotal(h, last); WrapSmall(b); }
      LastSummand(cs, a, b);
      assert cs == front + [last];
    }
  }

  lemma LastSummand(cs: seq<Element>, a: nat, b: nat)
    requires cs != [] && a + b < TWO32 && TextLen(cs[|cs| - 1]) == b
    requires SumLen(cs[..|cs| - 1]) == a == PrefixLen(cs[..|cs| - 1], |cs| - 1)
    ensures SumLen(cs) == a + b == PrefixLen(cs, |cs|)
  {
    PrefixLenOfPrefix(cs, |cs| - 1, |cs| - 1);
    WrapSmall(a + b);
  }
}

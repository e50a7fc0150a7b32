/** The green builder as a state machine: what every operation does to the parents, the flat
    children and the cache, and when it panics (`None`). */
module BuilderSpec {
  import opened Base
  import opened Interning
  import opened Green

  const CHILDREN_CACHE_THRESHOLD := 3

  /** The parts a language and its payload type supply: fixed token data per kind, which byte
      strings are valid payloads, and the hasher. */
  datatype Language = Language(staticData: u32 -> Option<bytes>, valid: bytes -> bool, hasher: Hasher)

  datatype Parent = Parent(kind: u32, firstChild: nat)

  datatype Checkpoint = Checkpoint(parentIdx: nat, childIdx: nat)

  datatype Cache = Cache(nodes: map<Head, GreenNode>, tokens: map<GreenToken, GreenToken>, interner: Interner)

  datatype State = State(parents: seq<Parent>, children: seq<Element>, cache: Cache)

  const EMPTY_CACHE := Cache(map[], map[], EMPTY_INTERNER)

  function NewState(cache: Cache): State {
    State([], [], cache)
  }

  // ----- the node cache

  function CacheNode(h: Hasher, cache: Cache, kind: u32, cs: seq<Element>): (GreenNode, Cache) {
    var head := HeadOf(h, kind, cs);
    if |cs| <= CHILDREN_CACHE_THRESHOLD then
      if head in cache.nodes then (cache.nodes[head], cache)
      else (Node(head, cs), cache.(nodes := cache.nodes[head := Node(head, cs)]))
    else (Node(head, cs), cache)
  }

  function CacheToken(cache: Cache, data: GreenToken): (GreenToken, Cache) {
    if data in cache.tokens then (cache.tokens[data], cache)
    else (data, cache.(tokens := cache.tokens[data := data]))
  }

  // ----- the builder's operations

  function PushToken(s: State, data: GreenToken): State {
    var (token, cache) := CacheToken(s.cache, data);
    s.(children := s.children + [Token(token)], cache := cache)
  }

  function AddToken(l: Language, s: State, kind: u32, data: bytes): Option<State> {
    match l.staticData(kind)
    case Some(text) => Some(PushToken(s, GreenToken(kind, None, Wrap(|text|))))
    case None =>
      var (r, interner) := Intern(l.valid, s.cache.interner, data);
      match r
      case Ok(key) =>
        Some(PushToken(s.(cache := s.cache.(interner := interner)), GreenToken(kind, Some(key), Wrap(|data|))))
      case Err(_) => None
  }

  function AddStaticToken(l: Language, s: State, kind: u32): Option<State> {
    match l.staticData(kind)
    case Some(text) => Some(PushToken(s, GreenToken(kind, None, Wrap(|text|))))
    case None => None
  }

  function StartNode(s: State, kind: u32): State {
    s.(parents := s.parents + [Parent(kind, |s.children|)])
  }

  function FinishNode(l: Language, s: State): Option<State> {
    if s.parents == [] then None else
    var n := |s.parents| - 1;
    var first := s.parents[n].firstChild;
    if first > |s.children| then None else
    var (node, cache) := CacheNode(l.hasher, s.cache, s.parents[n].kind, s.children[first..]);
    Some(State(s.parents[..n], s.children[..first] + [node], cache))
  }

  function TakeCheckpoint(s: State): Checkpoint {
    Checkpoint(|s.parents|, |s.children|)
  }

  /** The last two asserts shared by `revert_to` and `start_node_at`. */
  predicate ChildIdxAccepted(parents: seq<Parent>, childCount: nat, cp: Checkpoint) {
    && cp.childIdx <= childCount
    && (parents != [] ==> cp.childIdx >= parents[|parents| - 1].firstChild)
  }

  function RevertTo(s: State, cp: Checkpoint): Option<State> {
    if cp.parentIdx <= |s.parents| && ChildIdxAccepted(s.parents, |s.children|, cp) then
      Some(s.(parents := s.parents[..cp.parentIdx], children := s.children[..cp.childIdx]))
    else None
  }

  function StartNodeAt(s: State, cp: Checkpoint, kind: u32): Option<State> {
    if cp.parentIdx == |s.parents| && ChildIdxAccepted(s.parents, |s.children|, cp) then
      Some(s.(parents := s.parents + [Parent(kind, cp.childIdx)]))
    else None
  }

  function Finish(s: State): Option<GreenNode> {
    if |s.children| == 1 && s.children[0].Node? then Some(s.children[0]) else None
  }

  // ----- invariants

  /** Every open node starts inside the children, and later ones start no earlier. */
  ghost predicate Sorted(parents: seq<Parent>, childCount: nat) {
    && (forall i | 0 <= i < |parents| :: parents[i].firstChild <= childCount)
    && (forall i, j | 0 <= i < j < |parents| :: parents[i].firstChild <= parents[j].firstChild)
  }

  /** A token's key and length are the ones its text was interned with. */
  ghost predicate KnownToken(l: Language, values: seq<bytes>, t: GreenToken) {
    match l.staticData(t.kind)
    case Some(text) => t.key.None? && t.len == Wrap(|text|)
    case None => t.key.Some? && IntoU32(t.key.value) < |values| && t.len == Wrap(|values[IntoU32(t.key.value)]|)
  }

  ghost predicate Known(l: Language, values: seq<bytes>, e: Element) {
    match e
    case Node(_, cs) => AllKnown(l, values, cs)
    case Token(t) => KnownToken(l, values, t)
  }

  ghost predicate AllKnown(l: Language, values: seq<bytes>, cs: seq<Element>) {
    forall c | c in cs :: Known(l, values, c)
  }

  ghost predicate Good(l: Language, values: seq<bytes>, e: Element) {
    WellHeaded(l.hasher, e) && Known(l, values, e)
  }

  ghost predicate AllGood(l: Language, values: seq<bytes>, cs: seq<Element>) {
    forall c | c in cs :: Good(l, values, c)
  }

  lemma GoodChildren(l: Language, values: seq<bytes>, e: Element)
    requires e.Node? && Good(l, values, e)
    ensures AllGood(l, values, e.children)
  {
    assert AllHeaded(l.hasher, e.children) && AllKnown(l, values, e.children);
  }

  ghost predicate ValidCache(l: Language, cache: Cache) {
    && cache.interner.Valid()
    && (forall t | t in cache.tokens :: cache.tokens[t] == t)
    && (forall hd | hd in cache.nodes :: cache.nodes[hd].head == hd && Good(l, cache.interner.values, cache.nodes[hd]))
  }

  ghost predicate ValidState(l: Language, s: State) {
    && Sorted(s.parents, |s.children|)
    && ValidCache(l, s.cache)
    && AllGood(l, s.cache.interner.values, s.children)
  }

  lemma {:induction false} KnownGrows(l: Language, values: seq<bytes>, more: seq<bytes>, e: Element)
    requires Known(l, values, e) && values <= more
    ensures Known(l, more, e)
    decreases e
  {
    if e.Node? {
      forall c | c in e.children ensures Known(l, more, c) {
        KnownGrows(l, values, more, c);
      }
    }
  }

  lemma AllGoodGrows(l: Language, values: seq<bytes>, more: seq<bytes>, cs: seq<Element>)
    requires AllGood(l, values, cs) && values <= more
    ensures AllGood(l, more, cs)
  {
    forall c | c in cs ensures Good(l, more, c) {
      KnownGrows(l, values, more, c);
    }
  }

  lemma ValidStateGrows(l: Language, s: State, interner: Interner)
    requires ValidState(l, s) && interner.Valid() && s.cache.interner.values <= interner.values
    ensures ValidState(l, s.(cache := s.cache.(interner := interner)))
  {
    AllGoodGrows(l, s.cache.interner.values, interner.values, s.children);
    forall hd | hd in s.cache.nodes ensures Good(l, interner.values, s.cache.nodes[hd]) {
      KnownGrows(l, s.cache.interner.values, interner.values, s.cache.nodes[hd]);
    }
  }

  lemma PushTokenKeepsValid(l: Language, s: State, t: GreenToken)
    requires ValidState(l, s) && KnownToken(l, s.cache.interner.values, t)
    ensures ValidState(l, PushToken(s, t))
    ensures PushToken(s, t).children == s.children + [Token(t)]
  {
  }

  lemma AddTokenKeepsValid(l: Language, s: State, kind: u32, data: bytes)
    requires ValidState(l, s)
    ensures AddToken(l, s, kind, data).Some? ==> ValidState(l, AddToken(l, s, kind, data).value)
  {
    match l.staticData(kind)
    case Some(text) =>
      PushTokenKeepsValid(l, s, GreenToken(kind, None, Wrap(|text|)));
    case None =>
      InternIsInverse(l.valid, s.cache.interner, data);
      var (r, interner) := Intern(l.valid, s.cache.interner, data);
      ValidStateGrows(l, s, interner);
      if r.Ok? {
        assert interner.TryResolve(r.value) == Some(data);
        PushTokenKeepsValid(l, s.(cache := s.cache.(interner := interner)), GreenToken(kind, Some(r.value), Wrap(|data|)));
      }
  }

  /** A cache hit may return a node with other children, but never one with another head: every
      node the cache returns or stores satisfies the head invariant. */
  lemma CacheNodeKeepsHeads(l: Language, cache: Cache, kind: u32, cs: seq<Element>)
    requires ValidCache(l, cache) && AllGood(l, cache.interner.values, cs)
    ensures var (node, cache') := CacheNode(l.hasher, cache, kind, cs);
      && ValidCache(l, cache')
      && cache'.interner == cache.interner
      && node.head == HeadOf(l.hasher, kind, cs)
      && Good(l, cache.interner.values, node)
  {
    var built := MakeNode(l.hasher, kind, cs);
    assert AllHeaded(l.hasher, cs) && AllKnown(l, cache.interner.values, cs);
    assert WellHeaded(l.hasher, built) && Known(l, cache.interner.values, built);
  }

  /** Finishing never drains out of bounds, and keeps every invariant. */
  lemma FinishNodeKeepsValid(l: Language, s: State)
    requires ValidState(l, s)
    ensures FinishNode(l, s).Some? <==> s.parents != []
    ensures FinishNode(l, s).Some? ==> ValidState(l, FinishNode(l, s).value)
  {
    if s.parents != [] {
      var n := |s.parents| - 1;
      CacheNodeKeepsHeads(l, s.cache, s.parents[n].kind, s.children[s.parents[n].firstChild..]);
    }
  }

  /** Any checkpoint that passes the asserts, stale or not, keeps the open nodes in bounds. */
  lemma CheckpointsKeepValid(l: Language, s: State, cp: Checkpoint, kind: u32)
    requires ValidState(l, s)
    ensures RevertTo(s, cp).Some? ==> ValidState(l, RevertTo(s, cp).value)
    ensures StartNodeAt(s, cp, kind).Some? ==> ValidState(l, StartNodeAt(s, cp, kind).value)
  {
  }
}

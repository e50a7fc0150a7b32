/** The S-expression parser of the examples: total and lossless on every token list. */
module SExpr {
  import opened Base
  import opened Interning
  import opened Green
  import opened BuilderSpec
  import opened Programs
  import opened Reference
  import opened Refinement
  import opened Sharing
  import Builder

  const L_PAREN: u32 := 0
  const R_PAREN: u32 := 1
  const WORD: u32 := 2
  const WHITESPACE: u32 := 3
  const ERROR: u32 := 4
  const LIST: u32 := 5
  const ATOM: u32 := 6
  const ROOT: u32 := 7

  const OPENING: bytes := [40]
  const CLOSING: bytes := [41]

  datatype Lexeme = Lexeme(kind: u32, text: bytes)

  datatype Problem = Unmatched | Expected

  datatype Outcome = Ok | Eof | RParen

  /** The example's kinds: parentheses have fixed text. */
  predicate IsSExpr(l: Language) {
    && l.staticData(L_PAREN) == Some(OPENING) && l.staticData(R_PAREN) == Some(CLOSING)
    && l.staticData(WORD) == None && l.staticData(WHITESPACE) == None && l.staticData(ERROR) == None
  }

  /** What the lexer makes: the five token kinds, parentheses with their text. */
  predicate Lexed(l: Language, t: Lexeme) {
    && t.kind <= ERROR
    && (t.kind == L_PAREN ==> t.text == OPENING) && (t.kind == R_PAREN ==> t.text == CLOSING)
    && (t.kind >= WORD ==> l.valid(t.text))
  }

  // ----- what parsing should come to

  function LeafOf(t: Lexeme): Tree {
    Leaf(t.kind, t.text)
  }

  function LeafSeq(ts: seq<Lexeme>): seq<Tree> {
    seq(|ts|, i requires 0 <= i < |ts| => LeafOf(ts[i]))
  }

  /** A scan of the parentheses that starts at some depth: the closing ones met at depth 0, and the
      depth at the end. */
  function Scan(ts: seq<Lexeme>, depth: nat): (nat, nat) {
    if ts == [] then (0, depth)
    else if ts[0].kind == L_PAREN then Scan(ts[1..], depth + 1)
    else if ts[0].kind != R_PAREN then Scan(ts[1..], depth)
    else if depth > 0 then Scan(ts[1..], depth - 1)
    else
      var (stray, end) := Scan(ts[1..], 0);
      (stray + 1, end)
  }

  /** The lists in a tree that lack their closing parenthesis. */
  function Gaps(t: Tree): nat {
    match t
    case Leaf(_, _) => 0
    case Branch(kind, ts) => GapsAll(ts) + if kind == LIST && !Closed(ts) then 1 else 0
  }

  predicate Closed(ts: seq<Tree>) {
    ts != [] && ts[|ts| - 1].Leaf? && ts[|ts| - 1].kind == R_PAREN
  }

  function GapsAll(ts: seq<Tree>): nat {
    if ts == [] then 0 else GapsAll(ts[..|ts| - 1]) + Gaps(ts[|ts| - 1])
  }

  /** Only the last tree may have such a list in it: the input ends there. */
  predicate LateGaps(ts: seq<Tree>) {
    forall i | 0 <= i < |ts| - 1 :: Gaps(ts[i]) == 0
  }

  /** The children of the root and of lists. A list ends with its closing parenthesis, or with the
      input. */
  predicate Item(t: Tree) {
    match t
    case Leaf(kind, _) => kind == WHITESPACE || kind == ERROR
    case Branch(kind, ts) =>
      if kind == ATOM then |ts| == 1 && ts[0].Leaf? && ts[0].kind == WORD
      else kind == LIST && IsList(ts)
  }

  predicate IsList(ts: seq<Tree>) {
    && ts != [] && ts[0] == Leaf(L_PAREN, OPENING)
    && (if Closed(ts) then
          && |ts| >= 2 && ts[|ts| - 1] == Leaf(R_PAREN, CLOSING)
          && GapsAll(ts[1..|ts| - 1]) == 0 && forall t | t in ts[1..|ts| - 1] :: Item(t)
        else LateGaps(ts[1..]) && forall t | t in ts[1..] :: Item(t))
  }

  predicate TopItem(t: Tree) {
    Item(t) || t == Branch(ERROR, [Leaf(R_PAREN, CLOSING)])
  }

  /** The error nodes around stray closing parentheses. */
  function Strays(ts: seq<Tree>): nat {
    if ts == [] then 0
    else Strays(ts[..|ts| - 1]) + if ts[|ts| - 1].Branch? && ts[|ts| - 1].kind == ERROR then 1 else 0
  }

  lemma GapsConcat(ts: seq<Tree>, us: seq<Tree>)
    ensures GapsAll(ts + us) == GapsAll(ts) + GapsAll(us) && Strays(ts + us) == Strays(ts) + Strays(us)
  {
    SummedMapConcat(x => GapsAll(x), t => Gaps(t), ts, us);
    SummedMapConcat(x => Strays(x), (t: Tree) => if t.Branch? && t.kind == ERROR then 1 else 0, ts, us);
  }

  lemma GapsOne(t: Tree)
    ensures GapsAll([t]) == Gaps(t) && Strays([t]) == if t.Branch? && t.kind == ERROR then 1 else 0
  {
    assert [t][..0] == [];
  }

  lemma {:induction false} NoGaps(ts: seq<Tree>)
    requires GapsAll(ts) == 0
    ensures forall t | t in ts :: Gaps(t) == 0
    decreases ts
  {
    if ts != [] {
      NoGaps(ts[..|ts| - 1]);
    }
  }

  lemma LateGapsThen(ts: seq<Tree>, us: seq<Tree>)
    requires LateGaps(ts) && LateGaps(us) && (us == [] || GapsAll(ts) == 0)
    ensures LateGaps(ts + us)
  {
    if us == [] {
      assert ts + us == ts;
    } else {
      NoGaps(ts);
    }
  }

  lemma {:induction false} ItemsAreNotStray(ts: seq<Tree>)
    requires forall t | t in ts :: Item(t)
    ensures Strays(ts) == 0
    decreases ts
  {
    if ts != [] {
      ItemsAreNotStray(ts[..|ts| - 1]);
      assert Item(ts[|ts| - 1]);
    }
  }

  // ----- scanning

  lemma {:induction false} ScanConcat(a: seq<Lexeme>, b: seq<Lexeme>, depth: nat)
    ensures var (s, d) := Scan(a, depth);
            var (s', d') := Scan(b, d);
      Scan(a + b, depth) == (s + s', d')
    decreases a
  {
    if a == [] {
      assert a + b == b;
    } else {
      assert (a + b)[1..] == a[1..] + b;
      ScanConcat(a[1..], b, if a[0].kind == L_PAREN then depth + 1
                            else if a[0].kind == R_PAREN && depth > 0 then depth - 1 else depth);
    }
  }

  /** Without stray closings, starting deeper ends deeper by as much. */
  lemma {:induction false} ScanDeeper(ts: seq<Lexeme>, depth: nat, more: nat)
    requires Scan(ts, depth).0 == 0
    ensures Scan(ts, depth + more) == (0, Scan(ts, depth).1 + more)
    decreases ts
  {
    if ts != [] {
      ScanDeeper(ts[1..], if ts[0].kind == L_PAREN then depth + 1
                          else if ts[0].kind == R_PAREN && depth > 0 then depth - 1 else depth, more);
    }
  }

  lemma ScanOne(t: Lexeme, depth: nat)
    ensures Scan([t], depth) ==
              if t.kind == L_PAREN then (0, depth + 1)
              else if t.kind != R_PAREN then (0, depth)
              else if depth > 0 then (0, depth - 1) else (1, 0)
  {
    assert [t][1..] == [];
  }

  // ----- consuming tokens

  /** From `before` to `after` the parser ate tokens that are the leaves of `trees`; none of them
      closes what it did not open, and `unclosed` stay open, which happens only at the end. */
  ghost predicate Ate(before: seq<Lexeme>, after: seq<Lexeme>, trees: seq<Tree>, unclosed: nat) {
    && |after| <= |before|
    && var eaten := before[..|before| - |after|];
       && before == eaten + after && LeavesOfAll(trees) == LeafSeq(eaten)
       && Scan(eaten, 0) == (0, unclosed) && (unclosed > 0 ==> after == [])
  }

  lemma AteNothing(ts: seq<Lexeme>)
    ensures Ate(ts, ts, [], 0)
  {
    assert ts[..0] == [];
  }

  lemma LeafSeqConcat(a: seq<Lexeme>, b: seq<Lexeme>)
    ensures LeafSeq(a + b) == LeafSeq(a) + LeafSeq(b)
  {
  }

  lemma AteEaten(before: seq<Lexeme>, after: seq<Lexeme>, eaten: seq<Lexeme>, trees: seq<Tree>, unclosed: nat)
    requires before == eaten + after && LeavesOfAll(trees) == LeafSeq(eaten)
    requires Scan(eaten, 0) == (0, unclosed) && (unclosed > 0 ==> after == [])
    ensures Ate(before, after, trees, unclosed)
  {
    assert before[..|before| - |after|] == eaten;
  }

  lemma AteThen(before: seq<Lexeme>, mid: seq<Lexeme>, after: seq<Lexeme>, ts: seq<Tree>, o: nat, us: seq<Tree>, p: nat)
    requires Ate(before, mid, ts, o) && Ate(mid, after, us, p)
    ensures Ate(before, after, ts + us, o + p)
  {
    var a, b := before[..|before| - |mid|], mid[..|mid| - |after|];
    assert before == (a + b) + after;
    LeavesOfConcat(ts, us);
    LeafSeqConcat(a, b);
    ScanConcat(a, b, 0);
    ScanDeeper(b, 0, o);
    AteEaten(before, after, a + b, ts + us, o + p);
  }

  /** One token that is not a parenthesis. */
  lemma AteOne(before: seq<Lexeme>, t: Tree)
    requires before != [] && before[0].kind >= WORD && LeavesOf(t) == [LeafOf(before[0])]
    ensures Ate(before, before[1..], [t], 0)
  {
    var eaten := [before[0]];
    assert before == eaten + before[1..];
    ScanOne(before[0], 0);
    LeavesOfOne(t);
    assert LeafSeq(eaten) == [LeafOf(before[0])];
    AteEaten(before, before[1..], eaten, [t], 0);
  }

  lemma LeavesOfBranch(kind: u32, ts: seq<Tree>)
    ensures LeavesOfAll([Branch(kind, ts)]) == LeavesOfAll(ts)
  {
    LeavesOfOne(Branch(kind, ts));
  }

  lemma ListLeaves(first: Lexeme, inner: seq<Lexeme>, items: seq<Tree>)
    requires LeavesOfAll(items) == LeafSeq(inner)
    ensures LeavesOfAll([LeafOf(first)] + items) == LeafSeq([first] + inner)
  {
    LeavesOfConcat([LeafOf(first)], items);
    LeavesOfOne(LeafOf(first));
    LeafSeqConcat([first], inner);
    assert LeafSeq([first]) == [LeafOf(first)];
  }

  lemma ListScan(first: Lexeme, inner: seq<Lexeme>, o: nat)
    requires first.kind == L_PAREN && Scan(inner, 0) == (0, o)
    ensures Scan([first] + inner, 0) == (0, o + 1)
  {
    ScanConcat([first], inner, 0);
    ScanOne(first, 0);
    ScanDeeper(inner, 0, 1);
  }

  /** An opening parenthesis and what follows it to the end. */
  lemma AteUnclosed(before: seq<Lexeme>, items: seq<Tree>, o: nat)
    requires before != [] && before[0].kind == L_PAREN && Ate(before[1..], [], items, o)
    ensures Ate(before, [], [Branch(LIST, [LeafOf(before[0])] + items)], o + 1)
  {
    var first, inner := before[0], before[1..];
    assert inner[..|inner|] == inner && before == [first] + inner;
    ListLeaves(first, inner, items);
    ListScan(first, inner, o);
    LeavesOfBranch(LIST, [LeafOf(first)] + items);
    assert before + [] == before;
    AteEaten(before, [], before, [Branch(LIST, [LeafOf(first)] + items)], o + 1);
  }

  /** An opening parenthesis, what follows it, and its closing one. */
  lemma AteClosed(before: seq<Lexeme>, mid: seq<Lexeme>, items: seq<Tree>, o: nat)
    requires before != [] && before[0].kind == L_PAREN && Ate(before[1..], mid, items, o)
    requires mid != [] && mid[0].kind == R_PAREN
    ensures Ate(before, mid[1..], [Branch(LIST, [LeafOf(before[0])] + items + [LeafOf(mid[0])])], 0)
  {
    var first, last := before[0], mid[0];
    var inner := before[1..][..|before[1..]| - |mid|];
    ListLeaves(first, inner, items);
    ListScan(first, inner, 0);
    CloseList([first] + inner, last, [LeafOf(first)] + items);
    assert before == (([first] + inner) + [last]) + mid[1..];
    AteEaten(before, mid[1..], ([first] + inner) + [last], [Branch(LIST, [LeafOf(first)] + items + [LeafOf(last)])], 0);
  }

  lemma CloseList(front: seq<Lexeme>, last: Lexeme, ts: seq<Tree>)
    requires LeavesOfAll(ts) == LeafSeq(front) && Scan(front, 0) == (0, 1) && last.kind == R_PAREN
    ensures LeavesOfAll([Branch(LIST, ts + [LeafOf(last)])]) == LeafSeq(front + [last])
    ensures Scan(front + [last], 0) == (0, 0)
  {
    LeavesOfBranch(LIST, ts + [LeafOf(last)]);
    OneMoreLeaf(front, last, ts);
    ScanConcat(front, [last], 0);
    ScanOne(last, 1);
  }

  lemma OneMoreLeaf(front: seq<Lexeme>, last: Lexeme, ts: seq<Tree>)
    requires LeavesOfAll(ts) == LeafSeq(front)
    ensures LeavesOfAll(ts + [LeafOf(last)]) == LeafSeq(front + [last])
  {
    LeavesOfConcat(ts, [LeafOf(last)]);
    LeavesOfOne(LeafOf(last));
    LeafSeqConcat(front, [last]);
    assert LeafSeq([last]) == [LeafOf(last)];
  }

  // ----- the whole input

  /** As `Ate`, at the top level, where `stray` closing parentheses have been met. */
  ghost predicate AteTop(before: seq<Lexeme>, after: seq<Lexeme>, trees: seq<Tree>, stray: nat, unclosed: nat) {
    && |after| <= |before|
    && var eaten := before[..|before| - |after|];
       && before == eaten + after && LeavesOfAll(trees) == LeafSeq(eaten)
       && Scan(eaten, 0) == (stray, unclosed) && (unclosed > 0 ==> after == [])
  }

  lemma AteTopEaten(before: seq<Lexeme>, after: seq<Lexeme>, eaten: seq<Lexeme>, trees: seq<Tree>, stray: nat, unclosed: nat)
    requires before == eaten + after && LeavesOfAll(trees) == LeafSeq(eaten)
    requires Scan(eaten, 0) == (stray, unclosed) && (unclosed > 0 ==> after == [])
    ensures AteTop(before, after, trees, stray, unclosed)
  {
    assert before[..|before| - |after|] == eaten;
  }

  lemma AteTopThen(before: seq<Lexeme>, mid: seq<Lexeme>, after: seq<Lexeme>, ts: seq<Tree>, s: nat, o: nat,
                   us: seq<Tree>, p: nat)
    requires AteTop(before, mid, ts, s, o) && Ate(mid, after, us, p)
    ensures AteTop(before, after, ts + us, s, o + p)
  {
    var a, b := before[..|before| - |mid|], mid[..|mid| - |after|];
    assert before == (a + b) + after;
    LeavesOfConcat(ts, us);
    LeafSeqConcat(a, b);
    ScanConcat(a, b, 0);
    ScanDeeper(b, 0, o);
    AteTopEaten(before, after, a + b, ts + us, s, o + p);
  }

  lemma AteTopStray(before: seq<Lexeme>, mid: seq<Lexeme>, ts: seq<Tree>, s: nat, o: nat)
    requires AteTop(before, mid, ts, s, o) && mid != [] && mid[0].kind == R_PAREN
    ensures o == 0 && AteTop(before, mid[1..], ts + [Branch(ERROR, [LeafOf(mid[0])])], s + 1, 0)
  {
    var a, t := before[..|before| - |mid|], mid[0];
    assert before == (a + [t]) + mid[1..];
    LeavesOfConcat(ts, [Branch(ERROR, [LeafOf(t)])]);
    LeavesOfBranch(ERROR, [LeafOf(t)]);
    LeavesOfOne(LeafOf(t));
    LeafSeqConcat(a, [t]);
    assert LeafSeq([t]) == [LeafOf(t)];
    ScanConcat(a, [t], 0);
    ScanOne(t, 0);
    AteTopEaten(before, mid[1..], a + [t], ts + [Branch(ERROR, [LeafOf(t)])], s + 1, 0);
  }

  // ----- driving the builder

  ghost predicate Made(l: Language, before: State, prog: seq<Instr>, after: State) {
    Run(l, Machine(before, []), prog) == Some(Machine(after, []))
  }

  lemma MadeThen(l: Language, s: State, a: seq<Instr>, t: State, b: seq<Instr>, u: State)
    requires Made(l, s, a, t) && Made(l, t, b, u)
    ensures Made(l, s, a + b, u)
  {
    RunConcat(l, Machine(s, []), a, b);
  }

  lemma MadeOne(l: Language, s: State, i: Instr, t: State)
    requires Exec(l, Machine(s, []), i) == Some(Machine(t, []))
    ensures Made(l, s, [i], t)
  {
    RunOne(l, Machine(s, []), i);
  }

  /** Trees on trees. */
  lemma MadeTrees(l: Language, s: State, ts: seq<Tree>, t: State, us: seq<Tree>, u: State)
    requires Made(l, s, CallsAll(ts), t) && Made(l, t, CallsAll(us), u)
    ensures Made(l, s, CallsAll(ts + us), u)
  {
    MadeThen(l, s, CallsAll(ts), t, CallsAll(us), u);
    CallsAllConcat(ts, us);
  }

  /** A node around trees. */
  lemma MadeBranch(l: Language, s: State, kind: u32, t: State, ts: seq<Tree>, u: State, v: State)
    requires Made(l, s, [Start(kind)], t) && Made(l, t, CallsAll(ts), u) && Made(l, u, [Close], v)
    ensures Made(l, s, Calls(Branch(kind, ts)), v) && Made(l, s, CallsAll([Branch(kind, ts)]), v)
  {
    MadeThen(l, s, [Start(kind)], t, CallsAll(ts), u);
    MadeThen(l, s, [Start(kind)] + CallsAll(ts), u, [Close], v);
    CallsAllOne(Branch(kind, ts));
  }

  lemma ItemsHaveLeaves(ts: seq<Tree>)
    requires forall t | t in ts :: Item(t)
    ensures ts == [] || LeavesOfAll(ts) != []
  {
    if ts != [] {
      ItemHasLeaf(ts[0]);
      FirstHasLeaf(ts);
    }
  }

  lemma FirstHasLeaf(ts: seq<Tree>)
    requires ts != [] && LeavesOf(ts[0]) != []
    ensures LeavesOfAll(ts) != []
  {
    LeavesOfConcat([ts[0]], ts[1..]);
    LeavesOfOne(ts[0]);
    assert ts == [ts[0]] + ts[1..];
  }

  lemma ItemHasLeaf(t: Tree)
    requires Item(t)
    ensures LeavesOf(t) != []
  {
    if t.Branch? {
      FirstHasLeaf(t.children);
    }
  }

  /** Where the input has ended, no item follows. */
  lemma NothingAfterAGap(mid: seq<Lexeme>, after: seq<Lexeme>, us: seq<Tree>, o: nat, p: nat)
    requires Ate(mid, after, us, p) && (forall t | t in us :: Item(t)) && (o > 0 ==> mid == [])
    ensures us == [] || o == 0
  {
    ItemsHaveLeaves(us);
    if mid == [] {
      assert mid[..|mid| - |after|] == [];
    }
  }

  /** Tokens eaten, items made of them, and the builder driven accordingly. */
  ghost predicate Did(l: Language, s: State, before: seq<Lexeme>, items: seq<Tree>, unclosed: nat,
                      s': State, after: seq<Lexeme>) {
    && Made(l, s, CallsAll(items), s') && Ate(before, after, items, unclosed)
    && GapsAll(items) == unclosed && LateGaps(items) && forall t | t in items :: Item(t)
  }

  lemma DidNothing(l: Language, s: State, before: seq<Lexeme>)
    ensures Did(l, s, before, [], 0, s, before)
  {
    AteNothing(before);
  }

  lemma DidThen(l: Language, s: State, before: seq<Lexeme>, ts: seq<Tree>, o: nat, t: State, mid: seq<Lexeme>,
                us: seq<Tree>, p: nat, u: State, after: seq<Lexeme>)
    requires Did(l, s, before, ts, o, t, mid) && Did(l, t, mid, us, p, u, after)
    ensures Did(l, s, before, ts + us, o + p, u, after)
  {
    AteThen(before, mid, after, ts, o, us, p);
    MadeTrees(l, s, ts, t, us, u);
    GapsConcat(ts, us);
    NothingAfterAGap(mid, after, us, o, p);
    LateGapsThen(ts, us);
  }

  lemma AtomDone(l: Language, s: State, before: seq<Lexeme>, t: State, u: State, v: State)
    requires before != [] && before[0].kind == WORD && Made(l, s, [Start(ATOM)], t)
    requires Made(l, t, CallsAll([LeafOf(before[0])]), u) && Made(l, u, [Close], v)
    ensures Did(l, s, before, [Branch(ATOM, [LeafOf(before[0])])], 0, v, before[1..])
  {
    var leaf := LeafOf(before[0]);
    var tree := Branch(ATOM, [leaf]);
    LeavesOfOne(leaf);
    AteOne(before, tree);
    MadeBranch(l, s, ATOM, t, [leaf], u, v);
    GapsOne(leaf);
    GapsOne(tree);
  }

  lemma ListToTheEnd(l: Language, t: State, before: seq<Lexeme>, u: State, items: seq<Tree>, o: nat, v: State)
    requires before != [] && Lexed(l, before[0]) && before[0].kind == L_PAREN
    requires Made(l, t, CallsAll([LeafOf(before[0])]), u) && Did(l, u, before[1..], items, o, v, [])
    ensures var ts := [LeafOf(before[0])] + items;
      && Made(l, t, CallsAll(ts), v) && Ate(before, [], [Branch(LIST, ts)], o + 1) && Item(Branch(LIST, ts))
      && Gaps(Branch(LIST, ts)) == o + 1
  {
    var first := LeafOf(before[0]);
    MadeTrees(l, t, [first], u, items, v);
    AteUnclosed(before, items, o);
    var ts := [first] + items;
    assert ts[1..] == items;
    GapsConcat([first], items);
    GapsOne(first);
    assert !Closed(ts) by {
      assert items != [] ==> Item(items[|items| - 1]);
    }
    assert IsList(ts);
  }

  lemma ListClosed(l: Language, t: State, before: seq<Lexeme>, u: State, items: seq<Tree>, o: nat, v: State,
                   mid: seq<Lexeme>, w: State)
    requires before != [] && Lexed(l, before[0]) && before[0].kind == L_PAREN
    requires mid != [] && Lexed(l, mid[0]) && mid[0].kind == R_PAREN
    requires Made(l, t, CallsAll([LeafOf(before[0])]), u) && Did(l, u, before[1..], items, o, v, mid)
    requires Made(l, v, CallsAll([LeafOf(mid[0])]), w)
    ensures var ts := [LeafOf(before[0])] + items + [LeafOf(mid[0])];
      && o == 0 && Made(l, t, CallsAll(ts), w)
      && Ate(before, mid[1..], [Branch(LIST, ts)], 0) && Item(Branch(LIST, ts)) && Gaps(Branch(LIST, ts)) == 0
  {
    var first, last := LeafOf(before[0]), LeafOf(mid[0]);
    MadeTrees(l, t, [first], u, items, v);
    MadeTrees(l, t, [first] + items, v, [last], w);
    AteClosed(before, mid, items, o);
    var ts := [first] + items + [last];
    assert ts[1..|ts| - 1] == items;
    GapsConcat([first] + items, [last]);
    GapsConcat([first], items);
    GapsOne(first);
    GapsOne(last);
    assert IsList(ts);
  }

  /** As `Did`, at the top level. */
  ghost predicate DidTop(l: Language, s: State, before: seq<Lexeme>, items: seq<Tree>, stray: nat, unclosed: nat,
                         s': State, after: seq<Lexeme>) {
    && Made(l, s, CallsAll(items), s') && AteTop(before, after, items, stray, unclosed)
    && GapsAll(items) == unclosed && LateGaps(items) && Strays(items) == stray && forall t | t in items :: TopItem(t)
  }

  lemma DidTopThen(l: Language, s: State, before: seq<Lexeme>, ts: seq<Tree>, stray: nat, o: nat, t: State,
                   mid: seq<Lexeme>, us: seq<Tree>, p: nat, u: State, after: seq<Lexeme>)
    requires DidTop(l, s, before, ts, stray, o, t, mid) && Did(l, t, mid, us, p, u, after)
    ensures DidTop(l, s, before, ts + us, stray, o + p, u, after)
  {
    AteTopThen(before, mid, after, ts, stray, o, us, p);
    MadeTrees(l, s, ts, t, us, u);
    GapsConcat(ts, us);
    NothingAfterAGap(mid, after, us, o, p);
    LateGapsThen(ts, us);
    ItemsAreNotStray(us);
  }

  lemma DidTopStray(l: Language, s: State, before: seq<Lexeme>, ts: seq<Tree>, stray: nat, o: nat, t: State,
                    mid: seq<Lexeme>, u: State)
    requires DidTop(l, s, before, ts, stray, o, t, mid)
    requires mid != [] && Lexed(l, mid[0]) && mid[0].kind == R_PAREN
    requires Made(l, t, CallsAll([Branch(ERROR, [LeafOf(mid[0])])]), u)
    ensures o == 0 && DidTop(l, s, before, ts + [Branch(ERROR, [LeafOf(mid[0])])], stray + 1, 0, u, mid[1..])
  {
    var error := Branch(ERROR, [LeafOf(mid[0])]);
    AteTopStray(before, mid, ts, stray, o);
    MadeTrees(l, s, ts, t, [error], u);
    GapsConcat(ts, [error]);
    LateGapsThen(ts, [error]);
    GapsOne(error);
    GapsOne(LeafOf(mid[0]));
  }

  lemma DidTopNothing(l: Language, s: State, before: seq<Lexeme>)
    ensures DidTop(l, s, before, [], 0, 0, s, before)
  {
    assert before[..0] == [];
  }

  /** At the end everything has been eaten. */
  lemma DidAll(l: Language, s: State, before: seq<Lexeme>, items: seq<Tree>, stray: nat, o: nat, s': State)
    requires DidTop(l, s, before, items, stray, o, s', [])
    ensures LeavesOfAll(items) == LeafSeq(before) && Scan(before, 0) == (stray, o) == (Strays(items), GapsAll(items))
  {
    assert before[..|before|] == before;
  }

  /** Skipping whitespace where there is nothing left does nothing. */
  lemma NothingLeft(l: Language, s: State, ws: seq<Tree>, s': State)
    requires Did(l, s, [], ws, 0, s', [])
    ensures s' == s
  {
    ItemsHaveLeaves(ws);
    assert LeafSeq([][..0]) == [];
  }

  lemma BumpSucceeds(l: Language, s: State, t: Lexeme)
    requires ValidState(l, s) && IsSExpr(l) && Lexed(l, t) && |s.cache.interner.values| < U32_MAX
    ensures AddToken(l, s, t.kind, t.text).Some?
    ensures AddToken(l, s, t.kind, t.text).value.parents == s.parents
    ensures |AddToken(l, s, t.kind, t.text).value.cache.interner.values| <= |s.cache.interner.values| + 1
  {
    InternIsInverse(l.valid, s.cache.interner, t.text);
  }

  function Errors(stray: nat, unclosed: nat): seq<Problem> {
    seq(stray, _ => Unmatched) + seq(unclosed, _ => Expected)
  }

  lemma {:induction false} CanonByLeaves(l: Language, t: Tree)
    requires forall leaf | leaf in LeavesOf(t) :: leaf.Leaf? && TextFor(l, leaf.kind, leaf.text) == leaf.text
    ensures Canon(l, t) == t
  {
    if t.Branch? {
      var ts := t.children;
      forall i | 0 <= i < |ts| ensures Canon(l, ts[i]) == ts[i] {
        LeavesOfChild(ts, i);
        CanonByLeaves(l, ts[i]);
      }
      assert CanonAll(l, ts) == ts;
    } else {
      assert t in LeavesOf(t);
    }
  }

  lemma {:induction false} LeavesOfChild(ts: seq<Tree>, i: nat)
    requires i < |ts|
    ensures forall leaf | leaf in LeavesOf(ts[i]) :: leaf in LeavesOfAll(ts)
    decreases ts
  {
    if i < |ts| - 1 {
      LeavesOfChild(ts[..|ts| - 1], i);
    }
  }

  /** Without a head collision, what `parse` returns is the tree it built, and its leaves are the
      input. */
  lemma ParsedTreeIsLossless(l: Language, tokens: seq<Lexeme>, items: seq<Tree>, s: State, tree: GreenNode)
    requires IsSExpr(l) && (forall t | t in tokens :: Lexed(l, t)) && LeavesOfAll(items) == LeafSeq(tokens)
    requires Made(l, NewState(EMPTY_CACHE), Calls(Branch(ROOT, items)), s) && Finish(s) == Some(tree)
    requires HeadsDistinct(Requested(l, Machine(NewState(EMPTY_CACHE), []), Calls(Branch(ROOT, items))))
    ensures Abs(l, s.cache.interner.values, tree) == Branch(ROOT, items)
    ensures LeavesOf(Abs(l, s.cache.interner.values, tree)) == LeafSeq(tokens)
  {
    var m, t := Machine(NewState(EMPTY_CACHE), []), Branch(ROOT, items);
    CallsBuildTheTree(l, EMPTY_REF, t);
    RunMatchesTrees(l, m, EMPTY_REF, Calls(t), Requested(l, m, Calls(t)));
    RunKeepsValid(l, m, Calls(t));
    forall leaf | leaf in LeavesOf(t) ensures leaf.Leaf? && TextFor(l, leaf.kind, leaf.text) == leaf.text {
      LexedLeaf(l, tokens, leaf);
    }
    CanonByLeaves(l, t);
    OneTree(l, s, t);
  }

  lemma LexedLeaf(l: Language, tokens: seq<Lexeme>, leaf: Tree)
    requires IsSExpr(l) && (forall t | t in tokens :: Lexed(l, t)) && leaf in LeafSeq(tokens)
    ensures leaf.Leaf? && TextFor(l, leaf.kind, leaf.text) == leaf.text
  {
    var i :| 0 <= i < |tokens| && leaf == LeafOf(tokens[i]);
    assert Lexed(l, tokens[i]);
  }

  lemma ErrorsAdd(errors: seq<Problem>, stray: nat, o: nat, p: nat)
    ensures (errors + Errors(stray, o)) + Errors(0, p) == errors + Errors(stray, o + p)
  {
  }

  class Parser {
    const lang: Language
    const builder: Builder.GreenNodeBuilder
    var tokens: seq<Lexeme>
    var errors: seq<Problem>

    ghost function Repr(): set<object> {
      {this} + builder.Repr()
    }

    /** The tokens left are the lexer's, and the interner has room for them. */
    ghost predicate Ready()
      reads this, builder, builder.cache, builder.cache.interner
    {
      && builder.Valid() && builder.cache.lang == lang && IsSExpr(lang)
      && (forall t | t in tokens :: Lexed(lang, t))
      && |builder.cache.interner.values| + |tokens| <= U32_MAX
    }

    constructor (lang: Language, tokens: seq<Lexeme>)
      requires IsSExpr(lang) && (forall t | t in tokens :: Lexed(lang, t)) && |tokens| <= U32_MAX
      ensures Ready() && this.lang == lang && this.tokens == tokens && errors == []
      ensures builder.View() == NewState(EMPTY_CACHE) && fresh(Repr())
    {
      var cache := new Builder.NodeCache(lang);
      var made := new Builder.GreenNodeBuilder.WithCache(cache);
      this.lang, this.tokens, errors, builder := lang, tokens, [], made;
    }

    method Bump()
      requires Ready() && tokens != []
      modifies Repr()
      ensures Ready() && tokens == old(tokens)[1..] && errors == old(errors)
      ensures builder.parents == old(builder.parents)
      ensures Made(lang, old(builder.View()), CallsAll([LeafOf(old(tokens)[0])]), builder.View())
    {
      ghost var s := builder.View();
      var t := tokens[0];
      tokens := tokens[1..];
      BumpSucceeds(lang, s, t);
      var ok := builder.Token(t.kind, t.text);
      assert ok;
      MadeOne(lang, s, Emit(t.kind, t.text), builder.View());
      CallsAllOne(LeafOf(t));
    }

    /** `start_node`. */
    method Enter(kind: u32)
      requires Ready()
      modifies Repr()
      ensures Ready() && tokens == old(tokens) && errors == old(errors)
      ensures builder.parents == old(builder.parents) + [Parent(kind, |old(builder.children)|)]
      ensures Made(lang, old(builder.View()), [Start(kind)], builder.View())
    {
      ghost var s := builder.View();
      builder.StartNode(kind);
      MadeOne(lang, s, Start(kind), builder.View());
    }

    /** `finish_node`, which does not panic because a node is open. */
    method Leave()
      requires Ready() && builder.parents != []
      modifies Repr()
      ensures Ready() && tokens == old(tokens) && errors == old(errors)
      ensures builder.parents == old(builder.parents)[..|old(builder.parents)| - 1]
      ensures Made(lang, old(builder.View()), [Close], builder.View())
      ensures |builder.children| == old(builder.parents)[|old(builder.parents)| - 1].firstChild + 1
      ensures builder.children[|builder.children| - 1].Node?
    {
      ghost var s := builder.View();
      FinishNodeKeepsValid(lang, s);
      var ok := builder.FinishNode();
      assert ok;
      MadeOne(lang, s, Close, builder.View());
    }

    method SkipWs() returns (ghost ws: seq<Tree>)
      requires Ready()
      modifies Repr()
      ensures Ready() && errors == old(errors) && builder.parents == old(builder.parents)
      ensures Did(lang, old(builder.View()), old(tokens), ws, 0, builder.View(), tokens)
      ensures forall t | t in ws :: t.Leaf? && t.kind == WHITESPACE
      ensures tokens != [] ==> tokens[0].kind != WHITESPACE
    {
      ghost var before, s := tokens, builder.View();
      ws := [];
      DidNothing(lang, s, before);
      while tokens != [] && tokens[0].kind == WHITESPACE
        invariant Ready() && errors == old(errors) && builder.parents == old(builder.parents)
        invariant Did(lang, s, before, ws, 0, builder.View(), tokens)
        invariant forall t | t in ws :: t.Leaf? && t.kind == WHITESPACE
        decreases |tokens|
      {
        ghost var mid, t := tokens, builder.View();
        ghost var leaf := BumpItem();
        DidThen(lang, s, before, ws, 0, t, mid, [leaf], 0, builder.View(), tokens);
        ws := ws + [leaf];
      }
    }

    /** `bump`, on whitespace or an error token, which is an item by itself. */
    method BumpItem() returns (ghost leaf: Tree)
      requires Ready() && tokens != [] && (tokens[0].kind == WHITESPACE || tokens[0].kind == ERROR)
      modifies Repr()
      ensures leaf == LeafOf(old(tokens)[0]) && tokens == old(tokens)[1..]
      ensures Ready() && errors == old(errors) && builder.parents == old(builder.parents)
      ensures Did(lang, old(builder.View()), old(tokens), [leaf], 0, builder.View(), tokens)
      ensures |tokens| < |old(tokens)|
    {
      leaf := LeafOf(tokens[0]);
      AteOne(tokens, leaf);
      GapsOne(leaf);
      Bump();
    }

    /** An atom: a node around one word. */
    method Atom() returns (ghost tree: Tree)
      requires Ready() && tokens != [] && tokens[0].kind == WORD
      modifies Repr()
      ensures Ready() && errors == old(errors) && builder.parents == old(builder.parents)
      ensures Did(lang, old(builder.View()), old(tokens), [tree], 0, builder.View(), tokens)
      ensures |tokens| < |old(tokens)|
    {
      ghost var before, s, leaf := tokens, builder.View(), LeafOf(tokens[0]);
      Enter(ATOM);
      ghost var t := builder.View();
      Bump();
      ghost var u := builder.View();
      Leave();
      tree := Branch(ATOM, [leaf]);
      AtomDone(lang, s, before, t, u, builder.View());
    }

    method List() returns (ghost tree: Tree, ghost unclosed: nat)
      requires Ready() && tokens != [] && tokens[0].kind == L_PAREN
      modifies Repr()
      ensures Ready() && errors == old(errors) + Errors(0, unclosed) && builder.parents == old(builder.parents)
      ensures Did(lang, old(builder.View()), old(tokens), [tree], unclosed, builder.View(), tokens)
      ensures |tokens| < |old(tokens)|
      decreases |tokens|, 0
    {
      ghost var before, s := tokens, builder.View();
      Enter(LIST);
      ghost var t := builder.View();
      Bump();
      ghost var children;
      children, unclosed := Rest(t, before);
      ghost var u := builder.View();
      Leave();
      tree := Branch(LIST, children);
      MadeBranch(lang, s, LIST, t, children, u, builder.View());
      GapsOne(tree);
    }

    /** What follows the opening parenthesis of a list. */
    method Rest(ghost t: State, ghost before: seq<Lexeme>) returns (ghost children: seq<Tree>, ghost unclosed: nat)
      requires Ready() && before != [] && tokens == before[1..] && Lexed(lang, before[0]) && before[0].kind == L_PAREN
      requires Made(lang, t, CallsAll([LeafOf(before[0])]), builder.View())
      modifies Repr()
      ensures Ready() && errors == old(errors) + Errors(0, unclosed) && builder.parents == old(builder.parents)
      ensures Made(lang, t, CallsAll(children), builder.View())
      ensures Ate(before, tokens, [Branch(LIST, children)], unclosed) && Item(Branch(LIST, children))
      ensures Gaps(Branch(LIST, children)) == unclosed
      ensures |tokens| < |before|
      decreases |tokens|, 5
    {
      ghost var u := builder.View();
      var res;
      ghost var items, o;
      res, items, o := Items();
      match res {
        case Eof =>
          children := ClosingMissing(old(errors), t, before, u, items, o);
          unclosed := o + 1;
        case RParen =>
          children := BumpClosing(t, before, u, items, o);
          unclosed := 0;
      }
    }

    /** The loop of `list`, which ends at a closing parenthesis or at the end of the input. */
    method Items() returns (res: Outcome, ghost items: seq<Tree>, ghost o: nat)
      requires Ready()
      modifies Repr()
      ensures Ready() && errors == old(errors) + Errors(0, o) && builder.parents == old(builder.parents)
      ensures Did(lang, old(builder.View()), old(tokens), items, o, builder.View(), tokens)
      ensures !res.Ok? && |tokens| <= |old(tokens)|
      ensures res.Eof? ==> tokens == []
      ensures res.RParen? ==> tokens != [] && tokens[0].kind == R_PAREN
      decreases |tokens|, 4
    {
      ghost var inner, u := tokens, builder.View();
      items, o := [], 0;
      DidNothing(lang, u, inner);
      while true
        invariant Ready() && builder.parents == old(builder.parents) && |tokens| <= |inner|
        invariant errors == old(errors) + Errors(0, o)
        invariant Did(lang, u, inner, items, o, builder.View(), tokens)
        decreases |tokens|
      {
        res, items, o := More(old(errors), u, inner, items, o);
        if !res.Ok? {
          break;
        }
      }
    }

    /** The arm of `list` for the end of the input. */
    method ClosingMissing(ghost errors0: seq<Problem>, ghost t: State, ghost before: seq<Lexeme>, ghost u: State,
                          ghost items: seq<Tree>, ghost o: nat)
      returns (ghost children: seq<Tree>)
      requires Ready() && tokens == [] && errors == errors0 + Errors(0, o)
      requires before != [] && Lexed(lang, before[0]) && before[0].kind == L_PAREN
      requires Made(lang, t, CallsAll([LeafOf(before[0])]), u)
      requires Did(lang, u, before[1..], items, o, builder.View(), tokens)
      modifies this`errors
      ensures Ready() && errors == errors0 + Errors(0, o + 1)
      ensures Made(lang, t, CallsAll(children), builder.View())
      ensures Ate(before, tokens, [Branch(LIST, children)], o + 1) && Item(Branch(LIST, children))
      ensures Gaps(Branch(LIST, children)) == o + 1
    {
      errors := errors + [Expected];
      ErrorsAdd(errors0, 0, o, 1);
      ListToTheEnd(lang, t, before, u, items, o, builder.View());
      children := [LeafOf(before[0])] + items;
    }

    /** The arm of `list` for its closing parenthesis. */
    method BumpClosing(ghost t: State, ghost before: seq<Lexeme>, ghost u: State, ghost items: seq<Tree>, ghost o: nat)
      returns (ghost children: seq<Tree>)
      requires Ready() && tokens != [] && tokens[0].kind == R_PAREN
      requires before != [] && Lexed(lang, before[0]) && before[0].kind == L_PAREN
      requires Made(lang, t, CallsAll([LeafOf(before[0])]), u)
      requires Did(lang, u, before[1..], items, o, builder.View(), tokens)
      modifies Repr()
      ensures Ready() && o == 0 && errors == old(errors) && builder.parents == old(builder.parents)
      ensures Made(lang, t, CallsAll(children), builder.View())
      ensures Ate(before, tokens, [Branch(LIST, children)], 0) && Item(Branch(LIST, children))
      ensures Gaps(Branch(LIST, children)) == 0
      ensures |tokens| < |old(tokens)|
    {
      ghost var mid, v := tokens, builder.View();
      assert Lexed(lang, mid[0]);
      Bump();
      ListClosed(lang, t, before, u, items, o, v, mid, builder.View());
      children := [LeafOf(before[0])] + items + [LeafOf(mid[0])];
    }

    /** One more call of `sexp`, added to what was done since `u`. */
    method More(ghost errors0: seq<Problem>, ghost u: State, ghost inner: seq<Lexeme>, ghost items: seq<Tree>, ghost o: nat)
      returns (res: Outcome, ghost items': seq<Tree>, ghost o': nat)
      requires Ready() && errors == errors0 + Errors(0, o) && Did(lang, u, inner, items, o, builder.View(), tokens)
      modifies Repr()
      ensures Ready() && errors == errors0 + Errors(0, o') && builder.parents == old(builder.parents)
      ensures Did(lang, u, inner, items', o', builder.View(), tokens)
      ensures |tokens| <= |old(tokens)| && (res.Ok? ==> |tokens| < |old(tokens)|)
      ensures res.Eof? ==> tokens == []
      ensures res.RParen? ==> tokens != [] && tokens[0].kind == R_PAREN
      decreases |tokens|, 3
    {
      ghost var mid, v := tokens, builder.View();
      ghost var more, p;
      res, more, p := Sexp();
      DidThen(lang, u, inner, items, o, v, mid, more, p, builder.View(), tokens);
      ErrorsAdd(errors0, 0, o, p);
      items', o' := items + more, o + p;
    }

    method Sexp() returns (res: Outcome, ghost items: seq<Tree>, ghost unclosed: nat)
      requires Ready()
      modifies Repr()
      ensures Ready() && errors == old(errors) + Errors(0, unclosed) && builder.parents == old(builder.parents)
      ensures Did(lang, old(builder.View()), old(tokens), items, unclosed, builder.View(), tokens)
      ensures |tokens| <= |old(tokens)| && (res.Ok? ==> |tokens| < |old(tokens)|)
      ensures res.Eof? ==> tokens == []
      ensures res.RParen? ==> tokens != [] && tokens[0].kind == R_PAREN
      decreases |tokens|, 2
    {
      ghost var before, s := tokens, builder.View();
      items := SkipWs();
      unclosed := 0;
      if tokens == [] {
        return Eof, items, 0;
      }
      if tokens[0].kind == R_PAREN {
        return RParen, items, 0;
      }
      ghost var mid, t := tokens, builder.View();
      ghost var tree;
      tree, unclosed := One();
      DidThen(lang, s, before, items, 0, t, mid, [tree], unclosed, builder.View(), tokens);
      return Outcome.Ok, items + [tree], unclosed;
    }

    /** The match in `sexp`; its last arm is unreachable. */
    method One() returns (ghost tree: Tree, ghost unclosed: nat)
      requires Ready() && tokens != [] && tokens[0].kind != WHITESPACE && tokens[0].kind != R_PAREN
      modifies Repr()
      ensures Ready() && errors == old(errors) + Errors(0, unclosed) && builder.parents == old(builder.parents)
      ensures Did(lang, old(builder.View()), old(tokens), [tree], unclosed, builder.View(), tokens)
      ensures |tokens| < |old(tokens)|
      decreases |tokens|, 1
    {
      unclosed := 0;
      assert Lexed(lang, tokens[0]);
      if tokens[0].kind == L_PAREN {
        tree, unclosed := List();
      } else if tokens[0].kind == WORD {
        tree := Atom();
      } else {
        assert tokens[0].kind == ERROR;
        tree := BumpItem();
      }
    }

    /** The error node around a stray closing parenthesis. */
    method Stray() returns (ghost tree: Tree)
      requires Ready() && tokens != [] && tokens[0].kind == R_PAREN
      modifies Repr()
      ensures Ready() && errors == old(errors) + [Unmatched] && tokens == old(tokens)[1..]
      ensures builder.parents == old(builder.parents) && tree == Branch(ERROR, [LeafOf(old(tokens)[0])])
      ensures Made(lang, old(builder.View()), CallsAll([tree]), builder.View())
    {
      ghost var s, leaf := builder.View(), LeafOf(tokens[0]);
      Enter(ERROR);
      errors := errors + [Unmatched];
      ghost var t := builder.View();
      Bump();
      ghost var u := builder.View();
      Leave();
      tree := Branch(ERROR, [leaf]);
      MadeBranch(lang, s, ERROR, t, [leaf], u, builder.View());
    }

    /** One more call of `sexp` at the top level. */
    method TopMore(ghost s: State, ghost before: seq<Lexeme>, ghost items: seq<Tree>, ghost stray: nat, ghost unclosed: nat)
      returns (res: Outcome, ghost items': seq<Tree>, ghost unclosed': nat)
      requires Ready() && errors == Errors(stray, unclosed)
      requires DidTop(lang, s, before, items, stray, unclosed, builder.View(), tokens)
      modifies Repr()
      ensures Ready() && errors == Errors(stray, unclosed') && builder.parents == old(builder.parents)
      ensures DidTop(lang, s, before, items', stray, unclosed', builder.View(), tokens)
      ensures |tokens| <= |old(tokens)| && (res.Ok? ==> |tokens| < |old(tokens)|)
      ensures res.Eof? ==> tokens == []
      ensures res.RParen? ==> tokens != [] && tokens[0].kind == R_PAREN
    {
      ghost var mid, t := tokens, builder.View();
      ghost var more, p;
      res, more, p := Sexp();
      DidTopThen(lang, s, before, items, stray, unclosed, t, mid, more, p, builder.View(), tokens);
      ErrorsAdd([], stray, unclosed, p);
      items', unclosed' := items + more, unclosed + p;
    }

    /** The arm of `parse` for a stray closing parenthesis. */
    method TopStray(ghost s: State, ghost before: seq<Lexeme>, ghost items: seq<Tree>, ghost stray: nat, ghost unclosed: nat)
      returns (ghost items': seq<Tree>)
      requires Ready() && errors == Errors(stray, unclosed) && tokens != [] && tokens[0].kind == R_PAREN
      requires DidTop(lang, s, before, items, stray, unclosed, builder.View(), tokens)
      modifies Repr()
      ensures Ready() && errors == Errors(stray + 1, unclosed) && builder.parents == old(builder.parents)
      ensures DidTop(lang, s, before, items', stray + 1, unclosed, builder.View(), tokens)
      ensures |tokens| < |old(tokens)|
    {
      ghost var mid, t := tokens, builder.View();
      assert Lexed(lang, tokens[0]);
      ghost var tree := Stray();
      DidTopStray(lang, s, before, items, stray, unclosed, t, mid, builder.View());
      items' := items + [tree];
    }

    /** The loop of `parse`. */
    method TopLevel() returns (ghost items: seq<Tree>, ghost stray: nat, ghost unclosed: nat)
      requires Ready() && errors == []
      modifies Repr()
      ensures Ready() && tokens == [] && errors == Errors(stray, unclosed) && builder.parents == old(builder.parents)
      ensures DidTop(lang, old(builder.View()), old(tokens), items, stray, unclosed, builder.View(), [])
    {
      ghost var before, s := tokens, builder.View();
      items, stray, unclosed := [], 0, 0;
      DidTopNothing(lang, s, before);
      while true
        invariant Ready() && errors == Errors(stray, unclosed) && builder.parents == old(builder.parents)
        invariant DidTop(lang, s, before, items, stray, unclosed, builder.View(), tokens)
        decreases |tokens|
      {
        var res;
        res, items, unclosed := TopMore(s, before, items, stray, unclosed);
        match res {
          case Eof =>
            return;
          case RParen =>
            items := TopStray(s, before, items, stray, unclosed);
            stray := stray + 1;
          case Ok =>
        }
      }
    }

    /** Parses whatever the lexer made, to the end, without a panic. The root's leaves are the tokens in
        order; the parentheses a depth scan leaves unmatched are exactly those in error nodes and those
        of lists without a closing one, and each of them is reported once, stray closings first; the
        builder ends with no open node and one child, which is a node. */
    method Parse() returns (tree: GreenNode, ghost items: seq<Tree>)
      requires Ready() && errors == [] && builder.View() == NewState(EMPTY_CACHE)
      modifies Repr()
      ensures tokens == [] && builder.Valid() && builder.parents == [] && BuilderSpec.Finish(builder.View()) == Some(tree)
      ensures Made(lang, NewState(EMPTY_CACHE), Calls(Branch(ROOT, items)), builder.View())
      ensures LeavesOfAll(items) == LeafSeq(old(tokens)) && LateGaps(items) && forall t | t in items :: TopItem(t)
      ensures (Strays(items), GapsAll(items)) == Scan(old(tokens), 0) && errors == Errors(Strays(items), GapsAll(items))
    {
      ghost var before, s := tokens, builder.View();
      Enter(ROOT);
      ghost var t := builder.View();
      ghost var stray, unclosed;
      items, stray, unclosed := TopLevel();
      ghost var u := builder.View();
      DidAll(lang, t, before, items, stray, unclosed, u);
      ghost var ws := SkipWs();
      NothingLeft(lang, u, ws, builder.View());
      Leave();
      MadeBranch(lang, s, ROOT, t, items, u, builder.View());
      var root := builder.Finish();
      tree := root.value;
    }
  }
}

/** Which tokens a run leaves behind, worked out from its calls alone, and that they are the leaves. */
module Survival {
  import opened Base
  import opened BuilderSpec
  import opened Programs
  import opened Checkpoints
  import opened Reference

  /** A checkpoint as the calls see it: how many tokens had survived and how many nodes were open when
      it was taken, and whether what was there then is still there. */
  datatype Mark = Mark(tokens: nat, depth: nat, live: bool)

  /** The surviving tokens; for every open node the number of checkpoints taken before it began; and
      the checkpoints. */
  datatype Ledger = Ledger(log: seq<Tree>, began: seq<nat>, marks: seq<Mark>)

  const EMPTY_LEDGER := Ledger([], [], [])

  function Kill(marks: seq<Mark>, from: nat): seq<Mark> {
    seq(|marks|, j requires 0 <= j < |marks| => if j < from then marks[j] else marks[j].(live := false))
  }

  /** One call, with no look at the builder. Closing a node swallows what was there at the checkpoints
      taken since it began; a node wrapped at a checkpoint began there. Reverting goes back to the
      checkpoint's tokens and open nodes, and what was there at later checkpoints is gone. */
  function Enter(l: Language, g: Ledger, i: Instr): Ledger {
    match i
    case Emit(kind, data) => g.(log := g.log + [Leaf(kind, TextFor(l, kind, data))])
    case EmitStatic(kind) => g.(log := g.log + [Leaf(kind, TextFor(l, kind, []))])
    case Start(_) => g.(began := g.began + [|g.marks|])
    case Close =>
      if g.began == [] then g else
      var n := |g.began| - 1;
      g.(began := g.began[..n], marks := Kill(g.marks, g.began[n]))
    case Take => g.(marks := g.marks + [Mark(|g.log|, |g.began|, true)])
    case WrapAt(slot, _) => g.(began := g.began + [slot + 1])
    case Revert(slot) =>
      if slot >= |g.marks| then g
      else Ledger(UpTo(g.log, g.marks[slot].tokens), UpTo(g.began, g.marks[slot].depth), Kill(g.marks, slot + 1))
  }

  function UpTo<T>(s: seq<T>, n: nat): seq<T> {
    if n <= |s| then s[..n] else s
  }

  function Book(l: Language, g: Ledger, prog: seq<Instr>): Ledger
    decreases prog
  {
    if prog == [] then g else Book(l, Enter(l, g, prog[0]), prog[1..])
  }

  /** The tokens pushed and not reverted. */
  function Survivors(l: Language, prog: seq<Instr>): seq<Tree> {
    Book(l, EMPTY_LEDGER, prog).log
  }

  predicate RevertsLive(g: Ledger, i: Instr) {
    i.Revert? ==> i.slot < |g.marks| && g.marks[i.slot].live
  }

  /** Every checkpoint reverted to is live when it is. */
  predicate AllRevertsLive(l: Language, g: Ledger, prog: seq<Instr>)
    decreases prog
  {
    prog != [] ==> RevertsLive(g, prog[0]) && AllRevertsLive(l, Enter(l, g, prog[0]), prog[1..])
  }

  // ----- the ledger and the builder

  /** The children below a checkpoint are still the ones whose leaves were counted at it. */
  ghost predicate Intact(r: RefState, g: Ledger, j: nat)
    requires j < |g.marks| && j < |r.cps|
  {
    && g.marks[j].tokens <= |g.log| && r.cps[j].childIdx <= |r.children|
    && LeavesOfAll(r.children[..r.cps[j].childIdx]) == g.log[..g.marks[j].tokens]
  }

  ghost predicate SameShape(r: RefState, g: Ledger) {
    && |g.began| == |r.parents| && |g.marks| == |r.cps|
    && forall j | 0 <= j < |g.marks| :: g.marks[j].depth == r.cps[j].parentIdx
  }

  /** Nodes that began after a live checkpoint, and later checkpoints, lie above it. */
  ghost predicate AboveLive(r: RefState, g: Ledger)
    requires SameShape(r, g)
  {
    && (forall j, k | 0 <= j < |g.marks| && g.marks[j].live && 0 <= k < |g.began| && g.began[k] > j ::
          r.parents[k].firstChild >= r.cps[j].childIdx)
    && (forall j, k | 0 <= j < k < |g.marks| && g.marks[j].live :: r.cps[k].childIdx >= r.cps[j].childIdx)
    && (forall k | 0 <= k < |g.began| :: g.began[k] <= |g.marks|)
  }

  ghost predicate Booked(r: RefState, g: Ledger) {
    && LeavesOfAll(r.children) == g.log && SameShape(r, g) && AboveLive(r, g)
    && forall j | 0 <= j < |g.marks| && g.marks[j].live :: Intact(r, g, j)
  }

  lemma PushStaysBooked(r: RefState, g: Ledger, leaf: Tree)
    requires Booked(r, g) && leaf.Leaf?
    ensures Booked(r.(children := r.children + [leaf]), g.(log := g.log + [leaf]))
  {
    var r', g' := r.(children := r.children + [leaf]), g.(log := g.log + [leaf]);
    LeafPushed(r.children, leaf);
    forall j | 0 <= j < |g.marks| && g.marks[j].live ensures Intact(r', g', j) {
      assert Intact(r, g, j);
      assert r'.children[..r.cps[j].childIdx] == r.children[..r.cps[j].childIdx];
    }
  }

  lemma OpenStaysBooked(r: RefState, g: Ledger, p: Parent, time: nat)
    requires Booked(r, g) && time <= |g.marks|
    requires forall j | 0 <= j < time && g.marks[j].live :: p.firstChild >= r.cps[j].childIdx
    ensures Booked(r.(parents := r.parents + [p]), g.(began := g.began + [time]))
  {
    var r', g' := r.(parents := r.parents + [p]), g.(began := g.began + [time]);
    forall j | 0 <= j < |g.marks| && g.marks[j].live ensures Intact(r', g', j) {
      assert Intact(r, g, j);
    }
  }

  lemma StartStaysBooked(r: RefState, g: Ledger, kind: u32)
    requires Booked(r, g)
    ensures Booked(r.(parents := r.parents + [Parent(kind, |r.children|)]), g.(began := g.began + [|g.marks|]))
  {
    assert forall j | 0 <= j < |g.marks| && g.marks[j].live :: Intact(r, g, j);
    OpenStaysBooked(r, g, Parent(kind, |r.children|), |g.marks|);
  }

  lemma WrapStaysBooked(r: RefState, g: Ledger, slot: nat, kind: u32)
    requires Booked(r, g) && slot < |r.cps|
    ensures Booked(r.(parents := r.parents + [Parent(kind, r.cps[slot].childIdx)]), g.(began := g.began + [slot + 1]))
  {
    OpenStaysBooked(r, g, Parent(kind, r.cps[slot].childIdx), slot + 1);
  }

  lemma TakeStaysBooked(r: RefState, g: Ledger)
    requires Booked(r, g)
    ensures Booked(r.(cps := r.cps + [Checkpoint(|r.parents|, |r.children|)]),
                   g.(marks := g.marks + [Mark(|g.log|, |g.began|, true)]))
  {
    var r' := r.(cps := r.cps + [Checkpoint(|r.parents|, |r.children|)]);
    var g' := g.(marks := g.marks + [Mark(|g.log|, |g.began|, true)]);
    assert r.children[..|r.children|] == r.children && g.log[..|g.log|] == g.log;
    forall j | 0 <= j < |g'.marks| && g'.marks[j].live ensures Intact(r', g', j) {
      assert j < |g.marks| ==> Intact(r, g, j);
    }
  }

  lemma CloseStaysBooked(r: RefState, g: Ledger, r': RefState, g': Ledger)
    requires Booked(r, g) && r.parents != [] && r.parents[|r.parents| - 1].firstChild <= |r.children|
    requires var n := |r.parents| - 1;
             var p := r.parents[n];
      && r' == r.(parents := r.parents[..n], children := r.children[..p.firstChild] + [Branch(p.kind, r.children[p.firstChild..])])
      && g' == g.(began := g.began[..n], marks := Kill(g.marks, g.began[n]))
    ensures Booked(r', g')
  {
    var n := |r.parents| - 1;
    var p := r.parents[n];
    LeavesWrapped(r.children, p.firstChild, p.kind);
    forall j | 0 <= j < |g'.marks| && g'.marks[j].live ensures Intact(r', g', j) {
      assert g.marks[j].live && g.began[n] > j && Intact(r, g, j);
      assert r'.children[..r.cps[j].childIdx] == r.children[..r.cps[j].childIdx];
    }
  }

  lemma RevertStaysBooked(r: RefState, g: Ledger, slot: nat, r': RefState, g': Ledger)
    requires Booked(r, g) && slot < |g.marks| && g.marks[slot].live
    requires r.cps[slot].parentIdx <= |r.parents| && r.cps[slot].childIdx <= |r.children|
    requires r' == r.(parents := r.parents[..r.cps[slot].parentIdx], children := r.children[..r.cps[slot].childIdx])
    requires g.marks[slot].tokens <= |g.log| && g.marks[slot].depth <= |g.began|
    requires g' == Ledger(g.log[..g.marks[slot].tokens], g.began[..g.marks[slot].depth], Kill(g.marks, slot + 1))
    ensures Booked(r', g')
  {
    assert Intact(r, g, slot);
    forall j | 0 <= j < |g'.marks| && g'.marks[j].live ensures Intact(r', g', j) {
      assert j <= slot && g.marks[j].live && Intact(r, g, j);
      IntactBelow(r, g, j, slot);
    }
  }

  lemma IntactBelow(r: RefState, g: Ledger, j: nat, slot: nat)
    requires j < |g.marks| && slot < |g.marks| == |r.cps| && Intact(r, g, j) && Intact(r, g, slot)
    requires r.cps[j].childIdx <= r.cps[slot].childIdx
    ensures g.marks[j].tokens <= g.marks[slot].tokens
    ensures LeavesOfAll(r.children[..r.cps[slot].childIdx][..r.cps[j].childIdx]) ==
              g.log[..g.marks[slot].tokens][..g.marks[j].tokens]
  {
    var c, d := r.cps[j].childIdx, r.cps[slot].childIdx;
    assert r.children[..d][..c] == r.children[..c];
    LeavesKept(r.children[..d], c);
  }

  lemma RefExecBooks(l: Language, r: RefState, g: Ledger, i: Instr, r': RefState, g': Ledger)
    requires Booked(r, g) && RevertsLive(g, i) && RefExec(l, r, i) == Some(r') && Enter(l, g, i) == g'
    ensures Booked(r', g')
  {
    if i.Emit? || i.EmitStatic? || i.Take? {
      GrowingBooks(l, r, g, i, r', g');
    } else {
      NestingBooks(l, r, g, i, r', g');
    }
  }

  lemma GrowingBooks(l: Language, r: RefState, g: Ledger, i: Instr, r': RefState, g': Ledger)
    requires Booked(r, g) && RefExec(l, r, i) == Some(r') && Enter(l, g, i) == g'
    requires i.Emit? || i.EmitStatic? || i.Take?
    ensures Booked(r', g')
  {
    match i
    case Emit(kind, data) => PushStaysBooked(r, g, Leaf(kind, TextFor(l, kind, data)));
    case EmitStatic(kind) => PushStaysBooked(r, g, Leaf(kind, TextFor(l, kind, [])));
    case Take => TakeStaysBooked(r, g);
  }

  lemma NestingBooks(l: Language, r: RefState, g: Ledger, i: Instr, r': RefState, g': Ledger)
    requires Booked(r, g) && RevertsLive(g, i) && RefExec(l, r, i) == Some(r') && Enter(l, g, i) == g'
    requires i.Start? || i.Close? || i.WrapAt? || i.Revert?
    ensures Booked(r', g')
  {
    match i
    case Start(kind) => StartStaysBooked(r, g, kind);
    case Close => CloseStaysBooked(r, g, r', g');
    case WrapAt(slot, kind) => WrapStaysBooked(r, g, slot, kind);
    case Revert(slot) =>
      assert Intact(r, g, slot);
      RevertStaysBooked(r, g, slot, r', g');
  }

  /** Over whole runs in which every checkpoint reverted to is live: the leaves in the builder are the
      tokens that the calls alone say survive, in order. Wraps may use any checkpoint, live or not. */
  lemma {:induction false} RefRunYieldsSurvivors(l: Language, r: RefState, g: Ledger, prog: seq<Instr>)
    requires Booked(r, g) && AllRevertsLive(l, g, prog) && RefRun(l, r, prog).Some?
    ensures Booked(RefRun(l, r, prog).value, Book(l, g, prog))
    ensures LeavesOfAll(RefRun(l, r, prog).value.children) == Book(l, g, prog).log
    decreases prog
  {
    if prog != [] {
      var r', g' := RefExec(l, r, prog[0]).value, Enter(l, g, prog[0]);
      RefExecBooks(l, r, g, prog[0], r', g');
      RefRunYieldsSurvivors(l, r', g', prog[1..]);
    }
  }

  // ----- which checkpoints are live

  /** A run that goes on above a checkpoint keeps it live: it closes no node that was open then, and goes
      back no further. */
  lemma {:induction false} StaysAboveStaysLive(l: Language, m: Machine, g: Ledger, prog: seq<Instr>, depth: nat, slot: nat)
    requires StaysAbove(l, m, prog, depth, slot) && Run(l, m, prog).Some?
    requires Alike(m, g) && AboveSlot(g, depth, slot)
    ensures slot < |Book(l, g, prog).marks| && Book(l, g, prog).marks[slot].live
    decreases prog
  {
    if prog != [] {
      ExecStaysAlike(l, m, g, prog[0], depth, slot);
      StaysAboveStaysLive(l, Exec(l, m, prog[0]).value, Enter(l, g, prog[0]), prog[1..], depth, slot);
    }
  }

  ghost predicate Alike(m: Machine, g: Ledger) {
    && |g.began| == |m.b.parents| && |g.marks| == |m.cps|
    && forall j | 0 <= j < |g.marks| :: g.marks[j].depth == m.cps[j].parentIdx
  }

  ghost predicate AboveSlot(g: Ledger, depth: nat, slot: nat) {
    && slot < |g.marks| && g.marks[slot].live && depth <= |g.began|
    && (forall k | depth <= k < |g.began| :: g.began[k] > slot)
  }

  lemma ExecStaysAlike(l: Language, m: Machine, g: Ledger, i: Instr, depth: nat, slot: nat)
    requires Alike(m, g) && AboveSlot(g, depth, slot) && Exec(l, m, i).Some?
    requires i.WrapAt? || i.Revert? ==> i.slot >= slot
    requires |Exec(l, m, i).value.b.parents| >= depth
    ensures Alike(Exec(l, m, i).value, Enter(l, g, i)) && AboveSlot(Enter(l, g, i), depth, slot)
  {
    match i
    case Emit(kind, data) => AddTokenShape(l, m.b, Exec(l, m, i).value.b, kind, data);
    case EmitStatic(kind) => AddTokenShape(l, m.b, Exec(l, m, i).value.b, kind, []);
    case _ =>
  }

  /** In particular the checkpoint of a live run is live at the end of it. */
  lemma LiveRunIsLive(l: Language, m: Machine, g: Ledger, prog: seq<Instr>)
    requires LiveRun(l, m, prog) && Alike(m, g)
    ensures var end := Book(l, Enter(l, g, Take), prog);
      |m.cps| < |end.marks| && end.marks[|m.cps|].live
  {
    StaysAboveStaysLive(l, Taken(m), Enter(l, g, Take), prog, |m.b.parents|, |m.cps|);
  }

  // ----- checkpoints that are not live

  /** Live or not, a checkpoint that passes the asserts cuts the leaves back to those of the first
      `childIdx` children there are now. */
  lemma AnyRevertCutsLeaves(l: Language, r: RefState, slot: nat)
    requires RefExec(l, r, Revert(slot)).Some?
    ensures slot < |r.cps| && r.cps[slot].childIdx <= |r.children|
    ensures var kept := LeavesOfAll(r.children[..r.cps[slot].childIdx]);
      && LeavesOfAll(RefExec(l, r, Revert(slot)).value.children) == kept
      && kept <= LeavesOfAll(r.children)
  {
    LeavesKept(r.children, r.cps[slot].childIdx);
  }

  /** Whatever the tokens: after going back past a checkpoint and pushing something else, the checkpoint
      still passes the asserts, and reverting to it keeps the new token, not the one that was there. */
  lemma StaleRevertKeepsTheNewToken(l: Language, kind: u32, was: bytes, now: bytes)
    ensures var prog := [Take, Emit(kind, was), Take, Revert(0), Emit(kind, now), Revert(1)];
      && RefRun(l, EMPTY_REF, prog).Some?
      && RefRun(l, EMPTY_REF, prog).value.children == [Leaf(kind, TextFor(l, kind, now))]
      && !AllRevertsLive(l, EMPTY_LEDGER, prog)
  {
    var prog := [Take, Emit(kind, was), Take, Revert(0), Emit(kind, now), Revert(1)];
    var a, b := Leaf(kind, TextFor(l, kind, was)), Leaf(kind, TextFor(l, kind, now));
    var c0, c1 := Checkpoint(0, 0), Checkpoint(0, 1);
    var s1 := RefState([], [], [c0]);
    var s2 := RefState([], [a], [c0]);
    var s3 := RefState([], [a], [c0, c1]);
    var s4 := RefState([], [], [c0, c1]);
    var s5 := RefState([], [b], [c0, c1]);
    assert [b][..1] == [b] && [a][..0] == [] && [] + [a] == [a] && [] + [b] == [b] && [c0] + [c1] == [c0, c1];
    assert RefExec(l, s5, Revert(1)) == Some(s5);
    assert RefExec(l, s4, Emit(kind, now)) == Some(s5);
    assert RefExec(l, s3, Revert(0)) == Some(s4);
    assert RefExec(l, s2, Take) == Some(s3);
    assert RefExec(l, s1, Emit(kind, was)) == Some(s2);
    assert [] + [c0] == [c0];
    assert RefExec(l, EMPTY_REF, Take) == Some(s1);
    assert RefRun(l, s5, []) == Some(s5);
    assert RefRun(l, s5, prog[5..]) == Some(s5) by { assert prog[5..][1..] == []; }
    assert RefRun(l, s4, prog[4..]) == Some(s5) by { assert prog[4..][1..] == prog[5..]; }
    assert RefRun(l, s3, prog[3..]) == Some(s5) by { assert prog[3..][1..] == prog[4..]; }
    assert RefRun(l, s2, prog[2..]) == Some(s5) by { assert prog[2..][1..] == prog[3..]; }
    assert RefRun(l, s1, prog[1..]) == Some(s5) by { assert prog[1..][1..] == prog[2..]; }
    StaleLedger(l, kind, was, now);
  }

  lemma StaleLedger(l: Language, kind: u32, was: bytes, now: bytes)
    ensures !AllRevertsLive(l, EMPTY_LEDGER, [Take, Emit(kind, was), Take, Revert(0), Emit(kind, now), Revert(1)])
  {
    var prog := [Take, Emit(kind, was), Take, Revert(0), Emit(kind, now), Revert(1)];
    var g1 := Enter(l, EMPTY_LEDGER, prog[0]);
    var g2 := Enter(l, g1, prog[1]);
    var g3 := Enter(l, g2, prog[2]);
    var g4 := Enter(l, g3, prog[3]);
    var g5 := Enter(l, g4, prog[4]);
    assert |g5.marks| == 2 && !g5.marks[1].live;
    assert !AllRevertsLive(l, g5, prog[5..]);
    assert !AllRevertsLive(l, g4, prog[4..]) by { assert prog[4..][1..] == prog[5..]; }
    assert !AllRevertsLive(l, g3, prog[3..]) by { assert prog[3..][1..] == prog[4..]; }
    assert !AllRevertsLive(l, g2, prog[2..]) by { assert prog[2..][1..] == prog[3..]; }
    assert !AllRevertsLive(l, g1, prog[1..]) by { assert prog[1..][1..] == prog[2..]; }
  }
}

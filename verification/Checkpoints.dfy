/** Checkpoints: wrapping late is starting early, and reverting restores. */
module Checkpoints {
  import opened Base
  import opened Green
  import opened BuilderSpec
  import opened Programs

  /** The run never closes a node opened before the first `depth` ones, and uses only
      checkpoints taken at position `slot` or later. */
  ghost predicate StaysAbove(l: Language, m: Machine, prog: seq<Instr>, depth: nat, slot: nat)
    decreases prog
  {
    prog != [] ==>
      && (prog[0].WrapAt? || prog[0].Revert? ==> prog[0].slot >= slot)
      && (Exec(l, m, prog[0]).Some? ==>
            && |Exec(l, m, prog[0]).value.b.parents| >= depth
            && StaysAbove(l, Exec(l, m, prog[0]).value, prog[1..], depth, slot))
  }

  /** Everything from the checkpoint at position `slot` on is above `base`'s open nodes and children. */
  ghost predicate Above(base: State, slot: nat, m: Machine) {
    && base.parents <= m.b.parents
    && base.children <= m.b.children
    && Sorted(base.parents, |base.children|)
    && Sorted(m.b.parents, |m.b.children|)
    && slot < |m.cps| && m.cps[slot] == TakeCheckpoint(base)
    && (forall j | |base.parents| <= j < |m.b.parents| :: m.b.parents[j].firstChild >= |base.children|)
    && (forall j | slot <= j < |m.cps| :: m.cps[j].childIdx >= |base.children| && m.cps[j].parentIdx >= |base.parents|)
  }

  lemma AddTokenShape(l: Language, s: State, t: State, kind: u32, data: bytes)
    ensures AddToken(l, s, kind, data) == Some(t) || AddStaticToken(l, s, kind) == Some(t) ==>
              t.parents == s.parents && |t.children| == |s.children| + 1 && s.children <= t.children
  {
  }

  lemma ExecStaysAbove(l: Language, base: State, slot: nat, m: Machine, i: Instr)
    requires Above(base, slot, m)
    requires i.WrapAt? || i.Revert? ==> i.slot >= slot
    requires Exec(l, m, i).Some? && |Exec(l, m, i).value.b.parents| >= |base.parents|
    ensures Above(base, slot, Exec(l, m, i).value)
  {
    var m' := Exec(l, m, i).value;
    match i
    case Emit(kind, data) => TokenStaysAbove(l, base, slot, m, m'.b, kind, data);
    case EmitStatic(kind) => TokenStaysAbove(l, base, slot, m, m'.b, kind, []);
    case Start(kind) => OpenStaysAbove(base, slot, m, Parent(kind, |m.b.children|));
    case Close => CloseStaysAbove(l, base, slot, m);
    case Take =>
    case WrapAt(s, kind) => OpenStaysAbove(base, slot, m, Parent(kind, m.cps[s].childIdx));
    case Revert(s) => RevertStaysAbove(base, slot, m, s);
  }

  lemma TokenStaysAbove(l: Language, base: State, slot: nat, m: Machine, t: State, kind: u32, data: bytes)
    requires Above(base, slot, m)
    requires AddToken(l, m.b, kind, data) == Some(t) || AddStaticToken(l, m.b, kind) == Some(t)
    ensures Above(base, slot, m.(b := t))
  {
    AddTokenShape(l, m.b, t, kind, data);
  }

  lemma OpenStaysAbove(base: State, slot: nat, m: Machine, p: Parent)
    requires Above(base, slot, m) && |base.children| <= p.firstChild <= |m.b.children|
    requires m.b.parents != [] ==> m.b.parents[|m.b.parents| - 1].firstChild <= p.firstChild
    ensures Above(base, slot, m.(b := m.b.(parents := m.b.parents + [p])))
  {
  }

  lemma RevertStaysAbove(base: State, slot: nat, m: Machine, s: nat)
    requires Above(base, slot, m) && slot <= s < |m.cps| && RevertTo(m.b, m.cps[s]).Some?
    ensures Above(base, slot, m.(b := RevertTo(m.b, m.cps[s]).value))
  {
  }

  lemma CloseStaysAbove(l: Language, base: State, slot: nat, m: Machine)
    requires Above(base, slot, m) && |m.b.parents| > |base.parents|
    requires FinishNode(l, m.b).Some?
    ensures Above(base, slot, m.(b := FinishNode(l, m.b).value))
  {
    assert m.b.parents[|m.b.parents| - 1].firstChild >= |base.children|;
  }

  lemma {:induction false} RunStaysAbove(l: Language, base: State, slot: nat, m: Machine, prog: seq<Instr>)
    requires Above(base, slot, m)
    requires StaysAbove(l, m, prog, |base.parents|, slot)
    requires Run(l, m, prog).Some?
    ensures Above(base, slot, Run(l, m, prog).value)
    decreases prog
  {
    if prog != [] {
      ExecStaysAbove(l, base, slot, m, prog[0]);
      RunStaysAbove(l, base, slot, Exec(l, m, prog[0]).value, prog[1..]);
    }
  }

  // ----- wrapping late equals starting early

  function Insert(base: State, kind: u32, parents: seq<Parent>): seq<Parent>
    requires |base.parents| <= |parents|
  {
    parents[..|base.parents|] + [Parent(kind, |base.children|)] + parents[|base.parents|..]
  }

  /** `m'` is `m` with one more node open directly above `base`'s, started at `base`'s last child. */
  ghost predicate OneMoreOpen(base: State, slot: nat, kind: u32, m: Machine, m': Machine) {
    var p := |base.parents|;
    && p <= |m.b.parents|
    && m'.b == m.b.(parents := Insert(base, kind, m.b.parents))
    && |m'.cps| == |m.cps|
    && (forall j | 0 <= j < |m.cps| ::
          m'.cps[j] == if j < slot then m.cps[j] else m.cps[j].(parentIdx := m.cps[j].parentIdx + 1))
  }

  lemma AddTokenIgnoresParents(l: Language, s: State, s': State, kind: u32, data: bytes)
    requires s' == s.(parents := s'.parents)
    ensures AddToken(l, s', kind, data) == match AddToken(l, s, kind, data)
      case Some(t) => Some(t.(parents := s'.parents))
      case None => None
    ensures AddStaticToken(l, s', kind) == match AddStaticToken(l, s, kind)
      case Some(t) => Some(t.(parents := s'.parents))
      case None => None
  {
  }

  lemma PushBelow(base: State, kind: u32, parents: seq<Parent>, q: Parent)
    requires |base.parents| <= |parents|
    ensures Insert(base, kind, parents) + [q] == Insert(base, kind, parents + [q])
  {
  }

  lemma CloseOneMoreOpen(l: Language, base: State, slot: nat, kind: u32, m: Machine, m': Machine)
    requires Above(base, slot, m) && OneMoreOpen(base, slot, kind, m, m')
    requires FinishNode(l, m.b).Some? && |m.b.parents| > |base.parents|
    ensures FinishNode(l, m'.b).Some?
    ensures OneMoreOpen(base, slot, kind, m.(b := FinishNode(l, m.b).value), m'.(b := FinishNode(l, m'.b).value))
  {
    var n := |m.b.parents| - 1;
    PushBelow(base, kind, m.b.parents[..n], m.b.parents[n]);
    assert m.b.parents == m.b.parents[..n] + [m.b.parents[n]];
    assert m'.b.parents[..n + 1] == Insert(base, kind, m.b.parents[..n]);
  }

  lemma RevertOneMoreOpen(base: State, slot: nat, kind: u32, m: Machine, m': Machine, s: nat)
    requires Above(base, slot, m) && OneMoreOpen(base, slot, kind, m, m')
    requires slot <= s < |m.cps| && RevertTo(m.b, m.cps[s]).Some?
    ensures RevertTo(m'.b, m'.cps[s]).Some?
    ensures OneMoreOpen(base, slot, kind, m.(b := RevertTo(m.b, m.cps[s]).value), m'.(b := RevertTo(m'.b, m'.cps[s]).value))
  {
    var n := m.cps[s].parentIdx;
    assert m'.b.parents[..n + 1] == Insert(base, kind, m.b.parents[..n]);
  }

  /** One call in lock step. */
  lemma ExecOneMoreOpen(l: Language, base: State, slot: nat, kind: u32, m: Machine, m': Machine, i: Instr)
    requires Above(base, slot, m) && OneMoreOpen(base, slot, kind, m, m')
    requires i.WrapAt? || i.Revert? ==> i.slot >= slot
    requires Exec(l, m, i).Some? && |Exec(l, m, i).value.b.parents| >= |base.parents|
    ensures Exec(l, m', i).Some? && OneMoreOpen(base, slot, kind, Exec(l, m, i).value, Exec(l, m', i).value)
  {
    match i
    case Emit(k, data) => AddTokenIgnoresParents(l, m.b, m'.b, k, data);
    case EmitStatic(k) => AddTokenIgnoresParents(l, m.b, m'.b, k, []);
    case Start(k) => PushBelow(base, kind, m.b.parents, Parent(k, |m.b.children|));
    case Close => CloseOneMoreOpen(l, base, slot, kind, m, m');
    case Take =>
    case WrapAt(s, k) => PushBelow(base, kind, m.b.parents, Parent(k, m.cps[s].childIdx));
    case Revert(s) => RevertOneMoreOpen(base, slot, kind, m, m', s);
  }

  lemma {:induction false} RunOneMoreOpen(l: Language, base: State, slot: nat, kind: u32, m: Machine, m': Machine,
                                          prog: seq<Instr>)
    requires Above(base, slot, m) && OneMoreOpen(base, slot, kind, m, m')
    requires StaysAbove(l, m, prog, |base.parents|, slot) && Run(l, m, prog).Some?
    ensures Run(l, m', prog).Some? && OneMoreOpen(base, slot, kind, Run(l, m, prog).value, Run(l, m', prog).value)
    decreases prog
  {
    if prog != [] {
      ExecStaysAbove(l, base, slot, m, prog[0]);
      ExecOneMoreOpen(l, base, slot, kind, m, m', prog[0]);
      RunOneMoreOpen(l, base, slot, kind, Exec(l, m, prog[0]).value, Exec(l, m', prog[0]).value, prog[1..]);
    }
  }

  /** The machine right after `checkpoint()`; the new checkpoint is at position `|m.cps|`. */
  function Taken(m: Machine): Machine {
    m.(cps := m.cps + [TakeCheckpoint(m.b)])
  }

  /** A run that took a checkpoint, went on without closing any older node, and did not panic. */
  ghost predicate LiveRun(l: Language, m: Machine, prog: seq<Instr>) {
    && Sorted(m.b.parents, |m.b.children|)
    && StaysAbove(l, Taken(m), prog, |m.b.parents|, |m.cps|)
    && Run(l, Taken(m), prog).Some?
  }

  lemma LiveRunStaysAbove(l: Language, m: Machine, prog: seq<Instr>)
    requires LiveRun(l, m, prog)
    ensures Run(l, m, [Take] + prog) == Run(l, Taken(m), prog)
    ensures Above(m.b, |m.cps|, Run(l, Taken(m), prog).value)
  {
    RunOne(l, m, Take);
    RunConcat(l, m, [Take], prog);
    RunStaysAbove(l, m.b, |m.cps|, Taken(m), prog);
  }

  /** On a live checkpoint `start_node_at` panics exactly when nodes started since are still open. */
  lemma WrapSucceedsIffBalanced(l: Language, m: Machine, prog: seq<Instr>, kind: u32)
    requires LiveRun(l, m, prog)
    ensures var t := Run(l, Taken(m), prog).value;
      Run(l, m, [Take] + prog + [WrapAt(|m.cps|, kind)]).Some? <==> |t.b.parents| == |m.b.parents|
  {
    LiveRunStaysAbove(l, m, prog);
    var t := Run(l, Taken(m), prog).value;
    RunThen(l, m, [Take] + prog, t, WrapAt(|m.cps|, kind));
  }

  /** Wrapping late is starting early. Whatever happens between a checkpoint and its use, as long
      as it is balanced and stays above the checkpoint (other checkpoints, reverts and earlier uses
      of this same checkpoint included), wrapping everything in a node afterwards reaches exactly
      the parents, children, cache and interner reached by starting that node beforehand. */
  lemma WrapLateIsStartEarly(l: Language, m: Machine, prog: seq<Instr>, kind: u32)
    requires LiveRun(l, m, prog)
    requires |Run(l, Taken(m), prog).value.b.parents| == |m.b.parents|
    ensures var late := Run(l, m, [Take] + prog + [WrapAt(|m.cps|, kind)]);
            var early := Run(l, m, [Start(kind), Take] + prog);
      && late.Some? && early.Some?
      && late.value.b == early.value.b
      && |late.value.cps| == |early.value.cps|
      && forall j | 0 <= j < |late.value.cps| :: early.value.cps[j] ==
           if j < |m.cps| then late.value.cps[j]
           else late.value.cps[j].(parentIdx := late.value.cps[j].parentIdx + 1)
  {
    var slot := |m.cps|;
    LiveRunStaysAbove(l, m, prog);
    var t := Run(l, Taken(m), prog).value;
    RunThen(l, m, [Take] + prog, t, WrapAt(slot, kind));
    var begun := Taken(m.(b := StartNode(m.b, kind)));
    StartThenTake(l, m, prog, kind);
    StartIsOneMoreOpen(m, kind);
    RunOneMoreOpen(l, m.b, slot, kind, Taken(m), begun, prog);
    WrapIsOneMoreOpen(l, m.b, slot, kind, t, Run(l, begun, prog).value);
  }

  lemma StartIsOneMoreOpen(m: Machine, kind: u32)
    ensures OneMoreOpen(m.b, |m.cps|, kind, Taken(m), Taken(m.(b := StartNode(m.b, kind))))
  {
    assert m.b.parents[..|m.b.parents|] == m.b.parents;
  }

  lemma WrapIsOneMoreOpen(l: Language, base: State, slot: nat, kind: u32, t: Machine, early: Machine)
    requires Above(base, slot, t) && OneMoreOpen(base, slot, kind, t, early)
    requires |t.b.parents| == |base.parents|
    ensures Exec(l, t, WrapAt(slot, kind)) == Some(Machine(early.b, t.cps))
  {
    assert Insert(base, kind, t.b.parents) == t.b.parents + [Parent(kind, |base.children|)];
  }

  lemma StartThenTake(l: Language, m: Machine, prog: seq<Instr>, kind: u32)
    ensures Run(l, m, [Start(kind), Take] + prog) == Run(l, Taken(m.(b := StartNode(m.b, kind))), prog)
  {
    var begun := m.(b := StartNode(m.b, kind));
    RunOne(l, m, Start(kind));
    RunOne(l, begun, Take);
    RunConcat(l, m, [Start(kind)], [Take] + prog);
    RunConcat(l, begun, [Take], prog);
    assert [Start(kind), Take] + prog == [Start(kind)] + ([Take] + prog);
  }

  // ----- reverting restores

  /** On a live checkpoint `revert_to` succeeds exactly when the innermost node opened since, if
      there is one, begins right at the checkpoint; it then restores parents and children (the
      cache keeps what was added). */
  lemma RevertRestores(l: Language, m: Machine, prog: seq<Instr>)
    requires LiveRun(l, m, prog)
    ensures var t := Run(l, Taken(m), prog).value;
            var r := Run(l, m, [Take] + prog + [Revert(|m.cps|)]);
      && (r.Some? <==> |t.b.parents| > |m.b.parents| ==>
                         t.b.parents[|t.b.parents| - 1].firstChild == |m.b.children|)
      && (r.Some? ==> r.value.b == m.b.(cache := t.b.cache) && r.value.cps == t.cps)
  {
    LiveRunStaysAbove(l, m, prog);
    var t := Run(l, Taken(m), prog).value;
    RunThen(l, m, [Take] + prog, t, Revert(|m.cps|));
    assert t.b.parents[..|m.b.parents|] == m.b.parents && t.b.children[..|m.b.children|] == m.b.children;
    if |t.b.parents| > |m.b.parents| {
      assert t.b.parents[|t.b.parents| - 1].firstChild >= |m.b.children|;
    }
  }

  lemma {:induction false} StartStaysAbove(l: Language, m: Machine, prog: seq<Instr>, depth: nat, slot: nat, kind: u32)
    requires StaysAbove(l, m, prog, depth, slot) && |m.b.parents| >= depth
    ensures StaysAbove(l, m, prog + [Start(kind)], depth, slot)
    decreases prog
  {
    if prog == [] {
      assert (prog + [Start(kind)])[1..] == [];
    } else {
      assert (prog + [Start(kind)])[1..] == prog[1..] + [Start(kind)];
      if Exec(l, m, prog[0]).Some? {
        StartStaysAbove(l, Exec(l, m, prog[0]).value, prog[1..], depth, slot, kind);
      }
    }
  }

  /** The documentation of `revert_to` lets it delete every node still open; but once anything has
      been pushed past the checkpoint, the node started next makes it panic. */
  lemma RevertRejectsALateStart(l: Language, m: Machine, prog: seq<Instr>, kind: u32)
    requires LiveRun(l, m, prog) && |Run(l, Taken(m), prog).value.b.children| > |m.b.children|
    ensures LiveRun(l, m, prog + [Start(kind)])
    ensures Run(l, m, [Take] + (prog + [Start(kind)]) + [Revert(|m.cps|)]) == None
  {
    LiveRunStaysAbove(l, m, prog);
    StartStaysAbove(l, Taken(m), prog, |m.b.parents|, |m.cps|, kind);
    RunThen(l, Taken(m), prog, Run(l, Taken(m), prog).value, Start(kind));
    RevertRestores(l, m, prog + [Start(kind)]);
  }

  /** One token is enough, in any language and at any point: whichever token call goes through. */
  lemma TokenThenStartBlocksRevert(l: Language, m: Machine, i: Instr, kind: u32)
    requires Sorted(m.b.parents, |m.b.children|)
    requires (i.Emit? || i.EmitStatic?) && Exec(l, m, i).Some?
    ensures LiveRun(l, m, [i, Start(kind)])
    ensures Run(l, m, [Take, i, Start(kind), Revert(|m.cps|)]) == None
  {
    var m' := Exec(l, Taken(m), i).value;
    assert m'.b == Exec(l, m, i).value.b;
    AddTokenShape(l, m.b, m'.b, i.kind, if i.Emit? then i.data else []);
    RunOne(l, Taken(m), i);
    assert StaysAbove(l, m', [i][1..], |m.b.parents|, |m.cps|);
    RevertRejectsALateStart(l, m, [i], kind);
    assert [i] + [Start(kind)] == [i, Start(kind)];
    assert [Take] + [i, Start(kind)] + [Revert(|m.cps|)] == [Take, i, Start(kind), Revert(|m.cps|)];
  }
}

/** Runs of the builder: straight-line programs whose checkpoints come from `checkpoint()` calls. */
module Programs {
  import opened Base
  import opened Green
  import opened BuilderSpec

  /** One builder call. `Take` is `checkpoint()`; the other two checkpoint calls name the
      checkpoint by the position at which it was taken. */
  datatype Instr =
    | Emit(kind: u32, data: bytes)
    | EmitStatic(kind: u32)
    | Start(kind: u32)
    | Close
    | Take
    | WrapAt(slot: nat, kind: u32)
    | Revert(slot: nat)

  datatype Machine = Machine(b: State, cps: seq<Checkpoint>)

  function Lift(b: Option<State>, cps: seq<Checkpoint>): Option<Machine> {
    match b
    case Some(s) => Some(Machine(s, cps))
    case None => None
  }

  /** One call; `None` is a panic. */
  function Exec(l: Language, m: Machine, i: Instr): Option<Machine> {
    match i
    case Emit(kind, data) => Lift(AddToken(l, m.b, kind, data), m.cps)
    case EmitStatic(kind) => Lift(AddStaticToken(l, m.b, kind), m.cps)
    case Start(kind) => Some(m.(b := StartNode(m.b, kind)))
    case Close => Lift(FinishNode(l, m.b), m.cps)
    case Take => Some(m.(cps := m.cps + [TakeCheckpoint(m.b)]))
    case WrapAt(slot, kind) =>
      if slot < |m.cps| then Lift(StartNodeAt(m.b, m.cps[slot], kind), m.cps) else None
    case Revert(slot) =>
      if slot < |m.cps| then Lift(RevertTo(m.b, m.cps[slot]), m.cps) else None
  }

  function Run(l: Language, m: Machine, prog: seq<Instr>): Option<Machine>
    decreases prog
  {
    if prog == [] then Some(m) else
    match Exec(l, m, prog[0])
    case Some(m') => Run(l, m', prog[1..])
    case None => None
  }

  lemma {:induction false} RunConcat(l: Language, m: Machine, a: seq<Instr>, b: seq<Instr>)
    ensures Run(l, m, a + b) == match Run(l, m, a) case Some(m') => Run(l, m', b) case None => None
    decreases a
  {
    if a == [] {
      assert a + b == b;
    } else {
      assert (a + b)[1..] == a[1..] + b;
      if Exec(l, m, a[0]).Some? {
        RunConcat(l, Exec(l, m, a[0]).value, a[1..], b);
      }
    }
  }

  lemma RunOne(l: Language, m: Machine, i: Instr)
    ensures Run(l, m, [i]) == Exec(l, m, i)
  {
    if Exec(l, m, i).Some? {
      assert Run(l, Exec(l, m, i).value, [i][1..]) == Exec(l, m, i);
    }
  }

  lemma RunThen(l: Language, m: Machine, prog: seq<Instr>, t: Machine, i: Instr)
    requires Run(l, m, prog) == Some(t)
    ensures Run(l, m, prog + [i]) == Exec(l, t, i)
  {
    RunConcat(l, m, prog, [i]);
    RunOne(l, t, i);
  }

  /** Whatever the checkpoints in hand are worth, a call that does not panic keeps the builder's
      and the cache's invariants. */
  lemma ExecKeepsValid(l: Language, m: Machine, i: Instr)
    requires ValidState(l, m.b)
    ensures Exec(l, m, i).Some? ==> ValidState(l, Exec(l, m, i).value.b)
  {
    match i
    case Emit(kind, data) => AddTokenKeepsValid(l, m.b, kind, data);
    case EmitStatic(kind) => AddTokenKeepsValid(l, m.b, kind, []);
    case Start(_) =>
    case Close => FinishNodeKeepsValid(l, m.b);
    case Take =>
    case WrapAt(slot, kind) => if slot < |m.cps| { CheckpointsKeepValid(l, m.b, m.cps[slot], kind); }
    case Revert(slot) => if slot < |m.cps| { CheckpointsKeepValid(l, m.b, m.cps[slot], 0); }
  }

  /** Over whole runs, from any machine with a valid builder and arbitrary checkpoints: the open
      nodes stay in bounds and sorted, the cache stays consistent, and every head in the builder
      and the cache is its own children's. */
  lemma {:induction false} RunKeepsValid(l: Language, m: Machine, prog: seq<Instr>)
    requires ValidState(l, m.b)
    ensures Run(l, m, prog).Some? ==> ValidState(l, Run(l, m, prog).value.b)
    decreases prog
  {
    if prog != [] {
      ExecKeepsValid(l, m, prog[0]);
      if Exec(l, m, prog[0]).Some? {
        RunKeepsValid(l, Exec(l, m, prog[0]).value, prog[1..]);
      }
    }
  }
}

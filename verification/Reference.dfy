/** Plain text-carrying trees and the builder one would write without a cache, interner, heads
    or hashes; the yardstick for the real one. */
module Reference {
  import opened Base
  import opened BuilderSpec
  import opened Programs

  datatype Tree = Branch(kind: u32, children: seq<Tree>) | Leaf(kind: u32, text: bytes)

  datatype RefState = RefState(parents: seq<Parent>, children: seq<Tree>, cps: seq<Checkpoint>)

  const EMPTY_REF := RefState([], [], [])

  /** The text a token stands for: the kind's fixed text wins over the text passed in. */
  function TextFor(l: Language, kind: u32, data: bytes): bytes {
    match l.staticData(kind)
    case Some(text) => text
    case None => data
  }

  function RefExec(l: Language, r: RefState, i: Instr): Option<RefState> {
    match i
    case Emit(kind, data) => Some(r.(children := r.children + [Leaf(kind, TextFor(l, kind, data))]))
    case EmitStatic(kind) =>
      if l.staticData(kind).None? then None
      else Some(r.(children := r.children + [Leaf(kind, TextFor(l, kind, []))]))
    case Start(kind) => Some(r.(parents := r.parents + [Parent(kind, |r.children|)]))
    case Close =>
      if r.parents == [] then None else
      var p := r.parents[|r.parents| - 1];
      if p.firstChild > |r.children| then None else
      Some(r.(parents := r.parents[..|r.parents| - 1],
              children := r.children[..p.firstChild] + [Branch(p.kind, r.children[p.firstChild..])]))
    case Take => Some(r.(cps := r.cps + [Checkpoint(|r.parents|, |r.children|)]))
    case WrapAt(slot, kind) =>
      if slot < |r.cps| && r.cps[slot].parentIdx == |r.parents| && ChildIdxAccepted(r.parents, |r.children|, r.cps[slot])
      then Some(r.(parents := r.parents + [Parent(kind, r.cps[slot].childIdx)]))
      else None
    case Revert(slot) =>
      if slot < |r.cps| && r.cps[slot].parentIdx <= |r.parents| && ChildIdxAccepted(r.parents, |r.children|, r.cps[slot])
      then Some(r.(parents := r.parents[..r.cps[slot].parentIdx], children := r.children[..r.cps[slot].childIdx]))
      else None
  }

  function RefRun(l: Language, r: RefState, prog: seq<Instr>): Option<RefState>
    decreases prog
  {
    if prog == [] then Some(r) else
    match RefExec(l, r, prog[0])
    case Some(r') => RefRun(l, r', prog[1..])
    case None => None
  }

  // ----- leaves and text of a plain tree

  function LeavesOf(t: Tree): seq<Tree> {
    match t
    case Branch(_, ts) => LeavesOfAll(ts)
    case Leaf(_, _) => [t]
  }

  function LeavesOfAll(ts: seq<Tree>): seq<Tree> {
    if ts == [] then [] else LeavesOfAll(ts[..|ts| - 1]) + LeavesOf(ts[|ts| - 1])
  }

  function Text(t: Tree): bytes {
    match t
    case Branch(_, ts) => TextAll(ts)
    case Leaf(_, text) => text
  }

  function TextAll(ts: seq<Tree>): bytes {
    if ts == [] then [] else TextAll(ts[..|ts| - 1]) + Text(ts[|ts| - 1])
  }

  lemma LeavesOfConcat(a: seq<Tree>, b: seq<Tree>)
    ensures LeavesOfAll(a + b) == LeavesOfAll(a) + LeavesOfAll(b)
  {
    JoinedMapConcat(ts => LeavesOfAll(ts), t => LeavesOf(t), a, b);
  }

  lemma TextConcat(a: seq<Tree>, b: seq<Tree>)
    ensures TextAll(a + b) == TextAll(a) + TextAll(b)
  {
    JoinedMapConcat(ts => TextAll(ts), t => Text(t), a, b);
  }

  lemma LeavesOfOne(t: Tree)
    ensures LeavesOfAll([t]) == LeavesOf(t) && TextAll([t]) == Text(t)
  {
    assert [t][..0] == [];
  }

  /** A tree's text is the text of its leaves, in order. */
  lemma {:induction false} TextIsLeafText(t: Tree)
    ensures Text(t) == TextAll(LeavesOf(t))
    decreases t, 0
  {
    match t
    case Branch(_, ts) => TextAllIsLeafText(ts);
    case Leaf(_, text) => LeavesOfOne(t);
  }

  lemma {:induction false} TextAllIsLeafText(ts: seq<Tree>)
    ensures TextAll(ts) == TextAll(LeavesOfAll(ts))
    decreases ts, 1
  {
    if ts != [] {
      TextAllIsLeafText(ts[..|ts| - 1]);
      TextIsLeafText(ts[|ts| - 1]);
      TextConcat(LeavesOfAll(ts[..|ts| - 1]), LeavesOf(ts[|ts| - 1]));
    }
  }

  // ----- leaves of changed lists

  lemma LeavesWrapped(ts: seq<Tree>, n: nat, kind: u32)
    requires n <= |ts|
    ensures LeavesOfAll(ts[..n] + [Branch(kind, ts[n..])]) == LeavesOfAll(ts)
  {
    LeavesOfConcat(ts[..n], ts[n..]);
    LeavesOfConcat(ts[..n], [Branch(kind, ts[n..])]);
    LeavesOfOne(Branch(kind, ts[n..]));
    assert ts == ts[..n] + ts[n..];
  }

  lemma LeavesKept(ts: seq<Tree>, n: nat)
    requires n <= |ts|
    ensures var kept := |LeavesOfAll(ts[..n])|;
      kept <= |LeavesOfAll(ts)| && LeavesOfAll(ts)[..kept] == LeavesOfAll(ts[..n])
  {
    LeavesOfConcat(ts[..n], ts[n..]);
    assert ts == ts[..n] + ts[n..];
  }

  lemma LeafPushed(ts: seq<Tree>, leaf: Tree)
    requires leaf.Leaf?
    ensures LeavesOfAll(ts + [leaf]) == LeavesOfAll(ts) + [leaf]
  {
    LeavesOfConcat(ts, [leaf]);
    LeavesOfOne(leaf);
  }

  // ----- building a given tree

  /** The calls that build `t`. */
  function Calls(t: Tree): seq<Instr> {
    match t
    case Branch(kind, ts) => [Start(kind)] + CallsAll(ts) + [Close]
    case Leaf(kind, text) => [Emit(kind, text)]
  }

  function CallsAll(ts: seq<Tree>): seq<Instr> {
    if ts == [] then [] else CallsAll(ts[..|ts| - 1]) + Calls(ts[|ts| - 1])
  }

  lemma CallsAllConcat(ts: seq<Tree>, us: seq<Tree>)
    ensures CallsAll(ts + us) == CallsAll(ts) + CallsAll(us)
  {
    JoinedMapConcat(xs => CallsAll(xs), t => Calls(t), ts, us);
  }

  lemma CallsAllOne(t: Tree)
    ensures CallsAll([t]) == Calls(t)
  {
    assert [t][..0] == [] && CallsAll([]) == [];
  }

  /** The tree with every leaf of a kind that has a fixed text carrying that text. */
  function Canon(l: Language, t: Tree): Tree
    decreases t, 0
  {
    match t
    case Branch(kind, ts) => Branch(kind, CanonAll(l, ts))
    case Leaf(kind, text) => Leaf(kind, TextFor(l, kind, text))
  }

  function CanonAll(l: Language, ts: seq<Tree>): seq<Tree>
    decreases ts, 1
  {
    seq(|ts|, i requires 0 <= i < |ts| => Canon(l, ts[i]))
  }

  lemma {:induction false} RefRunConcat(l: Language, r: RefState, a: seq<Instr>, b: seq<Instr>)
    ensures RefRun(l, r, a + b) == match RefRun(l, r, a) case Some(r') => RefRun(l, r', b) case None => None
    decreases a
  {
    if a == [] {
      assert a + b == b;
    } else {
      assert (a + b)[1..] == a[1..] + b;
      if RefExec(l, r, a[0]).Some? {
        RefRunConcat(l, RefExec(l, r, a[0]).value, a[1..], b);
      }
    }
  }

  lemma RefRunOne(l: Language, r: RefState, i: Instr)
    ensures RefRun(l, r, [i]) == RefExec(l, r, i)
  {
    if RefExec(l, r, i).Some? {
      assert RefRun(l, RefExec(l, r, i).value, [i][1..]) == RefExec(l, r, i);
    }
  }

  /** Making a tree's calls pushes exactly that tree, up to fixed texts, and leaves the rest of the
      builder alone. */
  lemma {:induction false} CallsBuildTheTree(l: Language, r: RefState, t: Tree)
    ensures RefRun(l, r, Calls(t)) == Some(r.(children := r.children + [Canon(l, t)]))
    decreases t, 0
  {
    match t
    case Branch(kind, ts) =>
      var begun := r.(parents := r.parents + [Parent(kind, |r.children|)]);
      var full := begun.(children := begun.children + CanonAll(l, ts));
      RefRunOne(l, r, Start(kind));
      CallsBuildTheForest(l, begun, ts);
      RefRunOne(l, full, Close);
      RefRunConcat(l, r, [Start(kind)], CallsAll(ts));
      RefRunConcat(l, r, [Start(kind)] + CallsAll(ts), [Close]);
      assert full.parents[..|r.parents|] == r.parents;
      assert full.children[..|r.children|] == r.children && full.children[|r.children|..] == CanonAll(l, ts);
    case Leaf(kind, text) =>
      RefRunOne(l, r, Emit(kind, text));
  }

  lemma {:induction false} CallsBuildTheForest(l: Language, r: RefState, ts: seq<Tree>)
    ensures RefRun(l, r, CallsAll(ts)) == Some(r.(children := r.children + CanonAll(l, ts)))
    decreases ts, 1
  {
    if ts == [] {
      assert r.children + CanonAll(l, ts) == r.children;
    } else {
      var front, last := ts[..|ts| - 1], ts[|ts| - 1];
      CallsBuildTheForest(l, r, front);
      CallsBuildTheTree(l, r.(children := r.children + CanonAll(l, front)), last);
      RefRunConcat(l, r, CallsAll(front), Calls(last));
      assert CanonAll(l, ts) == CanonAll(l, front) + [Canon(l, last)];
      assert r.children + CanonAll(l, front) + [Canon(l, last)] == r.children + CanonAll(l, ts);
    }
  }
}

/** The three-address code that the front end prints, and a machine that runs it. */
module JumpMachine {
  type Name = string

  datatype Instr =
    | Label(l: nat)
    | Goto(l: nat)
    | IfGoto(x: Name, l: nat)
    | IfNotGoto(x: Name, l: nat)
    | SetTemp(temp: nat, v: bool)
    | StoreTemp(x: Name, temp: nat)
    | StoreConst(x: Name, v: bool)
    | Perform(x: Name)

  /** What can be observed of a run: tests made, values stored, other statements performed. */
  datatype Event = Tested(x: Name) | Stored(x: Name, v: bool) | Performed(x: Name)

  type Trace = seq<Event>

  /** Decides the test that ends the trace; it may depend on everything that happened before. */
  type Oracle = Trace -> bool

  datatype State = State(pc: nat, tr: Trace, temps: map<nat, bool>)

  /** The position of a label, or the end of the program. */
  function Where(prog: seq<Instr>, l: nat): (i: nat)
    ensures i <= |prog|
  {
    if prog == [] || prog[0] == Label(l) then 0 else 1 + Where(prog[1..], l)
  }

  function Step(prog: seq<Instr>, env: Oracle, s: State): State {
    if s.pc >= |prog| then s
    else
      var next := s.(pc := s.pc + 1);
      match prog[s.pc]
      case Label(_) => next
      case Goto(l) => s.(pc := Where(prog, l))
      case IfGoto(x, l) =>
        var tr := s.tr + [Tested(x)];
        s.(pc := if env(tr) then Where(prog, l) else s.pc + 1, tr := tr)
      case IfNotGoto(x, l) =>
        var tr := s.tr + [Tested(x)];
        s.(pc := if env(tr) then s.pc + 1 else Where(prog, l), tr := tr)
      case SetTemp(t, v) => next.(temps := s.temps[t := v])
      case StoreTemp(x, t) => next.(tr := s.tr + [Stored(x, t in s.temps && s.temps[t])])
      case StoreConst(x, v) => next.(tr := s.tr + [Stored(x, v)])
      case Perform(x) => next.(tr := s.tr + [Performed(x)])
  }

  function Exec(prog: seq<Instr>, env: Oracle, s: State, k: nat): State
    decreases k
  {
    if k == 0 then s else Exec(prog, env, Step(prog, env, s), k - 1)
  }

  lemma {:induction false} ExecAdd(prog: seq<Instr>, env: Oracle, s: State, j: nat, k: nat)
    ensures Exec(prog, env, s, j + k) == Exec(prog, env, Exec(prog, env, s, j), k)
    decreases j
  {
    if j > 0 {
      ExecAdd(prog, env, Step(prog, env, s), j - 1, k);
    }
  }

  lemma ExecOne(prog: seq<Instr>, env: Oracle, s: State)
    ensures Exec(prog, env, s, 1) == Step(prog, env, s)
  {
    assert Exec(prog, env, Step(prog, env, s), 0) == Step(prog, env, s);
  }

  /** Once past the last instruction the machine stays there. */
  lemma {:induction false} HaltedStays(prog: seq<Instr>, env: Oracle, s: State, k: nat)
    requires s.pc >= |prog|
    ensures Exec(prog, env, s, k) == s
    decreases k
  {
    if k > 0 {
      HaltedStays(prog, env, s, k - 1);
    }
  }

  // ----- a piece of code inside a program -----

  predicate At(prog: seq<Instr>, p: nat, code: seq<Instr>) {
    p + |code| <= |prog| && prog[p..p + |code|] == code
  }

  lemma AtSplit(prog: seq<Instr>, p: nat, a: seq<Instr>, b: seq<Instr>)
    requires At(prog, p, a + b)
    ensures At(prog, p, a) && At(prog, p + |a|, b)
  {
    var c := prog[p..p + |a + b|];
    assert c[..|a|] == a && c[|a|..] == b;
    assert c[..|a|] == prog[p..p + |a|] && c[|a|..] == prog[p + |a|..p + |a| + |b|];
  }

  lemma AtOne(prog: seq<Instr>, p: nat, i: Instr)
    requires At(prog, p, [i])
    ensures p < |prog| && prog[p] == i
  {
    assert prog[p..p + 1][0] == i;
  }

  predicate UniqueLabels(code: seq<Instr>) {
    forall i, j :: 0 <= i < j < |code| && code[i].Label? && code[j].Label? ==> code[i].l != code[j].l
  }

  /** Every label defined in the code was drawn after `lo` and not after `hi`. */
  predicate LabelsWithin(code: seq<Instr>, lo: nat, hi: nat) {
    forall i :: 0 <= i < |code| && code[i].Label? ==> lo < code[i].l <= hi
  }

  lemma {:induction false} WhereIs(prog: seq<Instr>, i: nat, l: nat)
    requires UniqueLabels(prog) && i < |prog| && prog[i] == Label(l)
    ensures Where(prog, l) == i
  {
    if i > 0 {
      assert prog[0] != Label(l);
      WhereIs(prog[1..], i - 1, l);
    }
  }

  lemma UniqueConcat(a: seq<Instr>, b: seq<Instr>, lo: nat, mid: nat, hi: nat)
    requires lo <= mid <= hi
    requires UniqueLabels(a) && LabelsWithin(a, lo, mid) && UniqueLabels(b) && LabelsWithin(b, mid, hi)
    ensures UniqueLabels(a + b) && LabelsWithin(a + b, lo, hi)
  {
  }

  /** A label drawn before the rest of the code may be placed anywhere in it. */
  lemma UniqueInsert(a: seq<Instr>, b: seq<Instr>, lo: nat, l: nat, hi: nat)
    requires lo < l <= hi && UniqueLabels(a + b) && LabelsWithin(a + b, l, hi)
    ensures UniqueLabels(a + [Label(l)] + b) && LabelsWithin(a + [Label(l)] + b, lo, hi)
  {
    var c, d := a + b, a + [Label(l)] + b;
    forall i | 0 <= i < |d| && d[i].Label?
      ensures lo < d[i].l <= hi && (i != |a| ==> l < d[i].l)
    {
      assert d[i] == if i < |a| then c[i] else if i == |a| then Label(l) else c[i - 1];
    }
    forall i, j | 0 <= i < j < |d| && d[i].Label? && d[j].Label?
      ensures d[i].l != d[j].l
    {
      if i != |a| && j != |a| {
        var x, y := if i < |a| then i else i - 1, if j < |a| then j else j - 1;
        assert d[i] == c[x] && d[j] == c[y];
      }
    }
  }
}

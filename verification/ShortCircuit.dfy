/** Boolean expressions, and the jumping code emitted for them. */
module ShortCircuit {
  import opened JumpMachine

  /** `Test` is a comparison whose operands have been reduced to addresses. */
  datatype BoolExpr =
    | Const(v: bool)
    | Test(x: Name)
    | And(left: BoolExpr, right: BoolExpr)
    | Or(left: BoolExpr, right: BoolExpr)
    | Not(arg: BoolExpr)

  datatype Verdict = Verdict(value: bool, tr: Trace)

  /** Short-circuit evaluation: the value, and the tests made on the way. */
  function Eval(e: BoolExpr, env: Oracle, tr: Trace): Verdict {
    match e
    case Const(v) => Verdict(v, tr)
    case Test(x) => Verdict(env(tr + [Tested(x)]), tr + [Tested(x)])
    case And(l, r) =>
      var v := Eval(l, env, tr);
      if v.value then Eval(r, env, v.tr) else v
    case Or(l, r) =>
      var v := Eval(l, env, tr);
      if v.value then v else Eval(r, env, v.tr)
    case Not(x) =>
      var v := Eval(x, env, tr);
      v.(value := !v.value)
  }

  /** Emitted code, and the last label drawn. */
  datatype Code = Code(instrs: seq<Instr>, labels: nat)

  function EmitJumps(x: Name, t: nat, f: nat): seq<Instr> {
    if t != 0 && f != 0 then [IfGoto(x, t), Goto(f)]
    else if t != 0 then [IfGoto(x, t)]
    else if f != 0 then [IfNotGoto(x, f)]
    else []
  }

  function OwnLabel(outer: nat, labels: nat): nat { if outer != 0 then outer else labels + 1 }

  function Drawn(outer: nat, labels: nat): nat { if outer != 0 then labels else labels + 1 }

  function Closing(outer: nat, labels: nat): seq<Instr> { if outer != 0 then [] else [Label(labels + 1)] }

  /** jumping(t, f) when `labels` labels have been drawn; 0 means fall through. */
  function Jump(e: BoolExpr, t: nat, f: nat, labels: nat): (c: Code)
    ensures labels <= c.labels
  {
    match e
    case Const(v) =>
      Code(if v && t != 0 then [Goto(t)] else if !v && f != 0 then [Goto(f)] else [], labels)
    case Test(x) => Code(EmitJumps(x, t, f), labels)
    case And(l, r) =>
      var first := Jump(l, 0, OwnLabel(f, labels), Drawn(f, labels));
      var second := Jump(r, t, f, first.labels);
      Code(first.instrs + second.instrs + Closing(f, labels), second.labels)
    case Or(l, r) =>
      var first := Jump(l, OwnLabel(t, labels), 0, Drawn(t, labels));
      var second := Jump(r, t, f, first.labels);
      Code(first.instrs + second.instrs + Closing(t, labels), second.labels)
    case Not(x) => Jump(x, f, t, labels)
  }

  function Destination(prog: seq<Instr>, l: nat, end: nat): nat {
    if l != 0 then Where(prog, l) else end
  }

  predicate IsPrefix(a: Trace, b: Trace) { |a| <= |b| && b[..|a|] == a }

  lemma PrefixTrans(a: Trace, b: Trace, c: Trace)
    requires IsPrefix(a, b) && IsPrefix(b, c)
    ensures IsPrefix(a, c)
  {
    assert c[..|a|] == c[..|b|][..|a|];
  }

  lemma {:induction false} EvalExtends(e: BoolExpr, env: Oracle, tr: Trace)
    ensures IsPrefix(tr, Eval(e, env, tr).tr)
    decreases e
  {
    match e
    case Const(_) =>
    case Test(_) =>
    case And(l, r) =>
      EvalExtends(l, env, tr);
      var v := Eval(l, env, tr);
      EvalExtends(r, env, v.tr);
      if v.value {
        PrefixTrans(tr, v.tr, Eval(r, env, v.tr).tr);
      }
    case Or(l, r) =>
      EvalExtends(l, env, tr);
      var v := Eval(l, env, tr);
      EvalExtends(r, env, v.tr);
      if !v.value {
        PrefixTrans(tr, v.tr, Eval(r, env, v.tr).tr);
      }
    case Not(x) => EvalExtends(x, env, tr);
  }

  // ----- the jumping contract -----

  /** Control has left the code for the label that the value selects, or fallen through where that label is 0, with
      the temporaries untouched. The tests made are those of short-circuit evaluation; only when both labels are 0,
      and the value decides nothing, may the last of them be missing. */
  predicate Jumped(prog: seq<Instr>, s: State, s': State, v: Verdict, t: nat, f: nat, end: nat) {
    s'.pc == Destination(prog, if v.value then t else f, end) && s'.temps == s.temps && IsPrefix(s'.tr, v.tr) &&
    (t != 0 || f != 0 ==> s'.tr == v.tr)
  }

  /** The two operands in sequence: `own` is the label that skips the second one when the first has value `skip`. */
  lemma Sequence(prog: seq<Instr>, env: Oracle, s: State, j: nat, k: nat, v: Verdict, w: Verdict, skip: bool,
                 t: nat, f: nat, labels: nat, mid: nat, last: nat) returns (n: nat)
    requires UniqueLabels(prog)
    requires var outer := if skip then t else f;
             var own := OwnLabel(outer, labels);
             At(prog, last, Closing(outer, labels)) &&
             Jumped(prog, s, Exec(prog, env, s, j), v, if skip then own else 0, if skip then 0 else own, mid)
    requires v.value != skip ==> Jumped(prog, Exec(prog, env, s, j), Exec(prog, env, Exec(prog, env, s, j), k), w, t, f, last)
    requires IsPrefix(v.tr, w.tr)
    ensures var outer := if skip then t else f;
            Jumped(prog, s, Exec(prog, env, s, n), if v.value == skip then v else w, t, f, last + |Closing(outer, labels)|)
  {
    var outer := if skip then t else f;
    var own := OwnLabel(outer, labels);
    ExecAdd(prog, env, s, j, k);
    n := if v.value == skip then j else j + k;
    var s' := Exec(prog, env, s, n);
    if outer == 0 {
      AtOne(prog, last, Label(own));
      WhereIs(prog, last, own);
      if s'.pc == last && (v.value == skip || (if w.value then t else f) == 0) {
        ExecAdd(prog, env, s, n, 1);
        ExecOne(prog, env, s');
        n := n + 1;
      }
    }
  }

  /** The code emitted for an expression meets the jumping contract, for all t and f, in any program around it whose
      labels are distinct. */
  lemma {:induction false} JumpCorrect(prog: seq<Instr>, env: Oracle, e: BoolExpr, t: nat, f: nat, labels: nat, s: State)
    returns (k: nat)
    requires UniqueLabels(prog) && At(prog, s.pc, Jump(e, t, f, labels).instrs)
    ensures Jumped(prog, s, Exec(prog, env, s, k), Eval(e, env, s.tr), t, f, s.pc + |Jump(e, t, f, labels).instrs|)
    decreases e, 1
  {
    match e
    case Const(v) => k := ConstCorrect(prog, env, v, t, f, labels, s);
    case Test(x) => k := TestCorrect(prog, env, x, t, f, labels, s);
    case And(_, _) => k := AndCorrect(prog, env, e, t, f, labels, s);
    case Or(_, _) => k := OrCorrect(prog, env, e, t, f, labels, s);
    case Not(x) => k := JumpCorrect(prog, env, x, f, t, labels, s);
  }

  lemma {:induction false} AndCorrect(prog: seq<Instr>, env: Oracle, e: BoolExpr, t: nat, f: nat, labels: nat, s: State)
    returns (k: nat)
    requires e.And? && UniqueLabels(prog) && At(prog, s.pc, Jump(e, t, f, labels).instrs)
    ensures Jumped(prog, s, Exec(prog, env, s, k), Eval(e, env, s.tr), t, f, s.pc + |Jump(e, t, f, labels).instrs|)
    decreases e, 0
  {
    hide Exec, UniqueLabels, At, Where;
    var own := OwnLabel(f, labels);
    var first := Jump(e.left, 0, own, Drawn(f, labels));
    var second := Jump(e.right, t, f, first.labels);
    var mid, last := s.pc + |first.instrs|, s.pc + |first.instrs| + |second.instrs|;
    AtSplit(prog, s.pc, first.instrs + second.instrs, Closing(f, labels));
    AtSplit(prog, s.pc, first.instrs, second.instrs);
    var j := JumpCorrect(prog, env, e.left, 0, own, Drawn(f, labels), s);
    var v := Eval(e.left, env, s.tr);
    var i := 0;
    if v.value {
      i := JumpCorrect(prog, env, e.right, t, f, first.labels, Exec(prog, env, s, j));
    }
    EvalExtends(e.right, env, v.tr);
    k := Sequence(prog, env, s, j, i, v, Eval(e.right, env, v.tr), false, t, f, labels, mid, last);
  }

  lemma {:induction false} OrCorrect(prog: seq<Instr>, env: Oracle, e: BoolExpr, t: nat, f: nat, labels: nat, s: State)
    returns (k: nat)
    requires e.Or? && UniqueLabels(prog) && At(prog, s.pc, Jump(e, t, f, labels).instrs)
    ensures Jumped(prog, s, Exec(prog, env, s, k), Eval(e, env, s.tr), t, f, s.pc + |Jump(e, t, f, labels).instrs|)
    decreases e, 0
  {
    hide Exec, UniqueLabels, At, Where;
    var own := OwnLabel(t, labels);
    var first := Jump(e.left, own, 0, Drawn(t, labels));
    var second := Jump(e.right, t, f, first.labels);
    var mid, last := s.pc + |first.instrs|, s.pc + |first.instrs| + |second.instrs|;
    AtSplit(prog, s.pc, first.instrs + second.instrs, Closing(t, labels));
    AtSplit(prog, s.pc, first.instrs, second.instrs);
    var j := JumpCorrect(prog, env, e.left, own, 0, Drawn(t, labels), s);
    var v := Eval(e.left, env, s.tr);
    var i := 0;
    if !v.value {
      i := JumpCorrect(prog, env, e.right, t, f, first.labels, Exec(prog, env, s, j));
    }
    EvalExtends(e.right, env, v.tr);
    k := Sequence(prog, env, s, j, i, v, Eval(e.right, env, v.tr), true, t, f, labels, mid, last);
  }

  lemma ConstCorrect(prog: seq<Instr>, env: Oracle, v: bool, t: nat, f: nat, labels: nat, s: State) returns (k: nat)
    requires At(prog, s.pc, Jump(Const(v), t, f, labels).instrs)
    ensures Jumped(prog, s, Exec(prog, env, s, k), Verdict(v, s.tr), t, f, s.pc + |Jump(Const(v), t, f, labels).instrs|)
  {
    var l := if v then t else f;
    k := if l != 0 then 1 else 0;
    if l != 0 {
      AtOne(prog, s.pc, Goto(l));
      ExecOne(prog, env, s);
    }
  }

  lemma TestCorrect(prog: seq<Instr>, env: Oracle, x: Name, t: nat, f: nat, labels: nat, s: State) returns (k: nat)
    requires At(prog, s.pc, EmitJumps(x, t, f))
    ensures Jumped(prog, s, Exec(prog, env, s, k), Eval(Test(x), env, s.tr), t, f, s.pc + |EmitJumps(x, t, f)|)
  {
    if t == 0 && f == 0 {
      k := 0;
      EvalExtends(Test(x), env, s.tr);
    } else {
      k := 1;
      ExecOne(prog, env, s);
      if t != 0 && f != 0 {
        assert EmitJumps(x, t, f) == [IfGoto(x, t)] + [Goto(f)];
        AtSplit(prog, s.pc, [IfGoto(x, t)], [Goto(f)]);
        AtOne(prog, s.pc, IfGoto(x, t));
        AtOne(prog, s.pc + 1, Goto(f));
        var s1 := Exec(prog, env, s, 1);
        if s1.pc == s.pc + 1 && !env(s1.tr) {
          k := 2;
          ExecAdd(prog, env, s, 1, 1);
          ExecOne(prog, env, s1);
        }
      } else {
        AtOne(prog, s.pc, EmitJumps(x, t, f)[0]);
      }
    }
  }

  // ----- the labels drawn are fresh, and each is placed once -----

  lemma {:induction false} JumpLabelsFresh(e: BoolExpr, t: nat, f: nat, labels: nat)
    ensures var c := Jump(e, t, f, labels); UniqueLabels(c.instrs) && LabelsWithin(c.instrs, labels, c.labels)
    decreases e
  {
    match e
    case Const(_) =>
    case Test(_) =>
    case And(l, r) =>
      var first := Jump(l, 0, OwnLabel(f, labels), Drawn(f, labels));
      JumpLabelsFresh(l, 0, OwnLabel(f, labels), Drawn(f, labels));
      JumpLabelsFresh(r, t, f, first.labels);
      OperandsFresh(first, Jump(r, t, f, first.labels), f, labels);
    case Or(l, r) =>
      var first := Jump(l, OwnLabel(t, labels), 0, Drawn(t, labels));
      JumpLabelsFresh(l, OwnLabel(t, labels), 0, Drawn(t, labels));
      JumpLabelsFresh(r, t, f, first.labels);
      OperandsFresh(first, Jump(r, t, f, first.labels), t, labels);
    case Not(x) => JumpLabelsFresh(x, f, t, labels);
  }

  lemma OperandsFresh(first: Code, second: Code, outer: nat, labels: nat)
    requires Drawn(outer, labels) <= first.labels <= second.labels
    requires UniqueLabels(first.instrs) && LabelsWithin(first.instrs, Drawn(outer, labels), first.labels)
    requires UniqueLabels(second.instrs) && LabelsWithin(second.instrs, first.labels, second.labels)
    ensures var c := first.instrs + second.instrs + Closing(outer, labels);
            UniqueLabels(c) && LabelsWithin(c, labels, second.labels)
  {
    var both := first.instrs + second.instrs;
    UniqueConcat(first.instrs, second.instrs, Drawn(outer, labels), first.labels, second.labels);
    assert both + [] == both;
    if outer == 0 {
      UniqueInsert(both, [], labels, labels + 1, second.labels);
      assert both + [Label(labels + 1)] + [] == both + Closing(outer, labels);
    }
  }

  // ----- evaluation and the truth tables -----

  /** The value of an expression when every test has a fixed outcome. */
  function Truth(e: BoolExpr, holds: Name -> bool): bool {
    match e
    case Const(v) => v
    case Test(x) => holds(x)
    case And(l, r) => Truth(l, holds) && Truth(r, holds)
    case Or(l, r) => Truth(l, holds) || Truth(r, holds)
    case Not(x) => !Truth(x, holds)
  }

  /** Short-circuit evaluation gives the value of the truth tables. */
  lemma {:induction false} EvalIsTruth(e: BoolExpr, env: Oracle, holds: Name -> bool, tr: Trace)
    requires forall t: Trace, x: Name :: env(t + [Tested(x)]) == holds(x)
    ensures Eval(e, env, tr).value == Truth(e, holds)
    decreases e
  {
    match e
    case Const(_) =>
    case Test(_) =>
    case And(l, r) =>
      EvalIsTruth(l, env, holds, tr);
      EvalIsTruth(r, env, holds, Eval(l, env, tr).tr);
    case Or(l, r) =>
      EvalIsTruth(l, env, holds, tr);
      EvalIsTruth(r, env, holds, Eval(l, env, tr).tr);
    case Not(x) => EvalIsTruth(x, env, holds, tr);
  }

  /** The right operand is tried only when the left one leaves the value open. */
  lemma RightOnlyIfNeeded(l: BoolExpr, r: BoolExpr, env: Oracle, tr: Trace)
    ensures var v := Eval(l, env, tr);
            && (!v.value ==> Eval(And(l, r), env, tr) == v)
            && (v.value ==> Eval(And(l, r), env, tr) == Eval(r, env, v.tr) && Eval(Or(l, r), env, tr) == v)
            && (!v.value ==> Eval(Or(l, r), env, tr) == Eval(r, env, v.tr))
  {
  }
}

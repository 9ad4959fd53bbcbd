/** The generated code does what the statement means: the same events in the same order, and it halts when the
    statement terminates and only then. */
module CodeGeneration {
  import opened JumpMachine
  import opened ShortCircuit
  import opened Statements

  /** The statement's code stands at `p`, right behind its begin label. */
  predicate Placed(prog: seq<Instr>, p: nat, s: Stmt, c: Ctx, n: nat, m: nat) {
    UniqueLabels(prog) && c.begin != 0 && c.after != 0 && 1 <= p <= |prog| && prog[p - 1] == Label(c.begin) &&
    At(prog, p, Gen(s, c, n, m).instrs)
  }

  /** What the code promises: after a normal end control falls through or is at `after`. */
  predicate Arrived(prog: seq<Instr>, s: State, out: Out, c: Ctx, end: nat) {
    s.tr == out.tr &&
    match out.sig
    case Normal => s.pc == end || s.pc == Where(prog, c.after)
    case Broke => s.pc == Where(prog, c.outerAfter)
    case Continued => s.pc == Where(prog, c.outerBegin)
  }

  function End(s: State, code: seq<Instr>): nat { s.pc + |code| }

  // ----- single steps appended to a run -----

  lemma OneMore(prog: seq<Instr>, env: Oracle, s: State, k: nat)
    ensures Exec(prog, env, s, k + 1) == Step(prog, env, Exec(prog, env, s, k))
  {
    ExecAdd(prog, env, s, k, 1);
    ExecOne(prog, env, Exec(prog, env, s, k));
  }

  lemma PassLabel(prog: seq<Instr>, env: Oracle, s: State, k: nat)
    requires var s' := Exec(prog, env, s, k); s'.pc < |prog| && prog[s'.pc].Label?
    ensures var s' := Exec(prog, env, s, k); Exec(prog, env, s, k + 1) == s'.(pc := s'.pc + 1)
  {
    OneMore(prog, env, s, k);
  }

  lemma TakeGoto(prog: seq<Instr>, env: Oracle, s: State, k: nat)
    requires var s' := Exec(prog, env, s, k); s'.pc < |prog| && prog[s'.pc].Goto?
    ensures var s' := Exec(prog, env, s, k); Exec(prog, env, s, k + 1) == s'.(pc := Where(prog, prog[s'.pc].l))
  {
    OneMore(prog, env, s, k);
  }

  /** Code that ends at a label and code that jumps to it meet behind it. */
  lemma MeetAtLabel(prog: seq<Instr>, p: nat, l: nat)
    requires UniqueLabels(prog) && At(prog, p, [Label(l)])
    ensures p < |prog| && prog[p] == Label(l) && Where(prog, l) == p
  {
    AtOne(prog, p, Label(l));
    WhereIs(prog, p, l);
  }

  // ----- assignments -----

  lemma StoreRuns(prog: seq<Instr>, env: Oracle, s: State, x: Name, f: nat, a: nat, temp: nat, q: nat, v: bool)
    requires UniqueLabels(prog) && At(prog, q, StoreLogical(x, f, a, temp))
    requires s.pc == if v then q else Where(prog, f)
    ensures var s' := Exec(prog, env, s, 4); s'.pc == q + 6 && s'.tr == s.tr + [Stored(x, v)]
  {
    hide At, UniqueLabels, Where;
    StorePlaced(prog, x, f, a, temp, q);
    FourSteps(prog, env, s);
    var s1 := Step(prog, env, s);
    var s2 := Step(prog, env, s1);
    var s3 := Step(prog, env, s2);
    if v {
      assert s1.pc == q + 1 && s2.pc == q + 4 && s3.pc == q + 5;
    } else {
      assert s1.pc == q + 3 && s2.pc == q + 4 && s3.pc == q + 5;
    }
  }

  lemma StorePlaced(prog: seq<Instr>, x: Name, f: nat, a: nat, temp: nat, q: nat)
    requires UniqueLabels(prog) && At(prog, q, StoreLogical(x, f, a, temp))
    ensures q + 5 < |prog| && prog[q] == SetTemp(temp, true) && prog[q + 1] == Goto(a)
    ensures prog[q + 2] == Label(f) && prog[q + 3] == SetTemp(temp, false) && prog[q + 4] == Label(a)
    ensures prog[q + 5] == StoreTemp(x, temp) && Where(prog, f) == q + 2 && Where(prog, a) == q + 4
  {
    hide UniqueLabels, Where;
    var part := prog[q..q + 6];
    assert part == StoreLogical(x, f, a, temp);
    assert part[0] == prog[q] && part[1] == prog[q + 1] && part[2] == prog[q + 2];
    assert part[3] == prog[q + 3] && part[4] == prog[q + 4] && part[5] == prog[q + 5];
    WhereIs(prog, q + 2, f);
    WhereIs(prog, q + 4, a);
  }

  lemma FourSteps(prog: seq<Instr>, env: Oracle, s: State)
    ensures Exec(prog, env, s, 4) == Step(prog, env, Step(prog, env, Step(prog, env, Step(prog, env, s))))
  {
    OneMore(prog, env, s, 3);
    OneMore(prog, env, s, 2);
    OneMore(prog, env, s, 1);
    ExecOne(prog, env, s);
  }

  lemma SetLogical(prog: seq<Instr>, env: Oracle, s: Stmt, c: Ctx, n: nat, m: nat, st: State, fuel: nat)
    returns (k: nat)
    requires s.SetBool? && !s.e.Const? && Placed(prog, st.pc, s, c, n, m)
    ensures Arrived(prog, Exec(prog, env, st, k), Run(s, env, st.tr, fuel, false).out, c, End(st, Gen(s, c, n, m).instrs))
  {
    hide Exec, Jump, Where, At, Eval, UniqueLabels, StoreLogical;
    var j := Jump(s.e, 0, n + 1, n + 2);
    var store := StoreLogical(s.x, n + 1, n + 2, m + 1);
    assert Gen(s, c, n, m).instrs == j.instrs + store;
    assert |store| == 6 by { StoreLength(s.x, n + 1, n + 2, m + 1); }
    AtSplit(prog, st.pc, j.instrs, store);
    k := JumpCorrect(prog, env, s.e, 0, n + 1, n + 2, st);
    var v := Eval(s.e, env, st.tr);
    StoreRuns(prog, env, Exec(prog, env, st, k), s.x, n + 1, n + 2, m + 1, st.pc + |j.instrs|, v.value);
    ExecAdd(prog, env, st, k, 4);
    k := k + 4;
    assert Run(s, env, st.tr, fuel, false) == Over(Out(Normal, v.tr + [Stored(s.x, v.value)]));
  }

  lemma StoreLength(x: Name, f: nat, a: nat, temp: nat)
    ensures |StoreLogical(x, f, a, temp)| == 6
  {
  }

  lemma SingleInstruction(prog: seq<Instr>, env: Oracle, s: Stmt, c: Ctx, n: nat, m: nat, st: State, fuel: nat)
    returns (k: nat)
    requires s.Null? || s.Simple? || s.Break? || s.Continue? || (s.SetBool? && s.e.Const?)
    requires Placed(prog, st.pc, s, c, n, m)
    ensures Arrived(prog, Exec(prog, env, st, k), Run(s, env, st.tr, fuel, false).out, c, End(st, Gen(s, c, n, m).instrs))
  {
    k := if s.Null? then 0 else 1;
    if !s.Null? {
      AtOne(prog, st.pc, Gen(s, c, n, m).instrs[0]);
      ExecOne(prog, env, st);
    }
  }

  // ----- the main induction, one lemma for each kind of statement -----

  /** The code of a statement, entered at its begin label, does what the statement does. */
  lemma {:induction false} GenCorrect(prog: seq<Instr>, env: Oracle, s: Stmt, c: Ctx, n: nat, m: nat, st: State, fuel: nat)
    returns (k: nat)
    requires Placed(prog, st.pc, s, c, n, m) && Run(s, env, st.tr, fuel, false).Over?
    ensures Arrived(prog, Exec(prog, env, st, k), Run(s, env, st.tr, fuel, false).out, c, End(st, Gen(s, c, n, m).instrs))
    decreases fuel, s, 2
  {
    hide Exec, Gen, Run, Where, Placed, Arrived;
    match s
    case SetBool(_, e) =>
      if e.Const? {
        k := SingleInstruction(prog, env, s, c, n, m, st, fuel);
      } else {
        k := SetLogical(prog, env, s, c, n, m, st, fuel);
      }
    case Seq(_, _) => k := SeqCorrect(prog, env, s, c, n, m, st, fuel);
    case If(_, _) => k := IfCorrect(prog, env, s, c, n, m, st, fuel);
    case Else(_, _, _) => k := ElseCorrect(prog, env, s, c, n, m, st, fuel);
    case While(_, _) => k := WhileCorrect(prog, env, s, c, n, m, st, fuel);
    case DoWhile(_, _) => k := DoCorrect(prog, env, s, c, n, m, st, fuel);
    case _ => k := SingleInstruction(prog, env, s, c, n, m, st, fuel);
  }

  lemma {:induction false} SeqCorrect(prog: seq<Instr>, env: Oracle, s: Stmt, c: Ctx, n: nat, m: nat, st: State, fuel: nat)
    returns (k: nat)
    requires s.Seq? && Placed(prog, st.pc, s, c, n, m) && Run(s, env, st.tr, fuel, false).Over?
    ensures Arrived(prog, Exec(prog, env, st, k), Run(s, env, st.tr, fuel, false).out, c, End(st, Gen(s, c, n, m).instrs))
    decreases fuel, s, 1
  {
    hide Exec, Where, At, Arrived;
    if s.first.Null? {
      k := GenCorrect(prog, env, s.second, c, n, m, st, fuel);
    } else if s.second.Null? {
      k := GenCorrect(prog, env, s.first, c, n, m, st, fuel);
    } else {
      k := SeqOfTwo(prog, env, s, c, n, m, st, fuel);
    }
  }

  lemma {:induction false} SeqOfTwo(prog: seq<Instr>, env: Oracle, s: Stmt, c: Ctx, n: nat, m: nat, st: State, fuel: nat)
    returns (k: nat)
    requires s.Seq? && !s.first.Null? && !s.second.Null? && Placed(prog, st.pc, s, c, n, m)
    requires Run(s, env, st.tr, fuel, false).Over?
    ensures Arrived(prog, Exec(prog, env, st, k), Run(s, env, st.tr, fuel, false).out, c, End(st, Gen(s, c, n, m).instrs))
    decreases fuel, s, 0
  {
    hide Exec, Where, At, Gen, Placed;
    var c1, c2 := c.(after := n + 1), c.(begin := n + 1);
    var g := SeqPlaced(prog, st.pc, s, c, n, m);
    k := GenCorrect(prog, env, s.first, c1, n + 1, m, st, fuel);
    var r := Run(s.first, env, st.tr, fuel, false).out;
    if r.sig.Normal? {
      PassLabel(prog, env, st, k);
      var s1 := Exec(prog, env, st, k + 1);
      var i := GenCorrect(prog, env, s.second, c2, g.labels, g.temps, s1, fuel);
      ExecAdd(prog, env, st, k + 1, i);
      k := k + 1 + i;
    }
  }

  lemma SeqPlaced(prog: seq<Instr>, p: nat, s: Stmt, c: Ctx, n: nat, m: nat) returns (g: Emitted)
    requires s.Seq? && !s.first.Null? && !s.second.Null? && Placed(prog, p, s, c, n, m)
    ensures g == Gen(s.first, c.(after := n + 1), n + 1, m)
    ensures Placed(prog, p, s.first, c.(after := n + 1), n + 1, m)
    ensures var q := p + |g.instrs|;
            q < |prog| && prog[q] == Label(n + 1) && Where(prog, n + 1) == q &&
            Placed(prog, q + 1, s.second, c.(begin := n + 1), g.labels, g.temps) &&
            |Gen(s, c, n, m).instrs| == |g.instrs| + 1 + |Gen(s.second, c.(begin := n + 1), g.labels, g.temps).instrs|
  {
    hide Where, At;
    g := Gen(s.first, c.(after := n + 1), n + 1, m);
    var h := Gen(s.second, c.(begin := n + 1), g.labels, g.temps);
    AtSplit(prog, p, g.instrs + [Label(n + 1)], h.instrs);
    AtSplit(prog, p, g.instrs, [Label(n + 1)]);
    MeetAtLabel(prog, p + |g.instrs|, n + 1);
  }

  lemma {:induction false} IfCorrect(prog: seq<Instr>, env: Oracle, s: Stmt, c: Ctx, n: nat, m: nat, st: State, fuel: nat)
    returns (k: nat)
    requires s.If? && Placed(prog, st.pc, s, c, n, m) && Run(s, env, st.tr, fuel, false).Over?
    ensures Arrived(prog, Exec(prog, env, st, k), Run(s, env, st.tr, fuel, false).out, c, End(st, Gen(s, c, n, m).instrs))
    decreases fuel, s, 1
  {
    hide Exec, Where, At, Jump, Eval;
    var j := Jump(s.e, 0, c.after, n + 1);
    var g := Gen(s.body, c.(begin := n + 1), j.labels, m);
    AtSplit(prog, st.pc, j.instrs + [Label(n + 1)], g.instrs);
    AtSplit(prog, st.pc, j.instrs, [Label(n + 1)]);
    k := JumpCorrect(prog, env, s.e, 0, c.after, n + 1, st);
    if Eval(s.e, env, st.tr).value {
      MeetAtLabel(prog, st.pc + |j.instrs|, n + 1);
      PassLabel(prog, env, st, k);
      var i := GenCorrect(prog, env, s.body, c.(begin := n + 1), j.labels, m, Exec(prog, env, st, k + 1), fuel);
      ExecAdd(prog, env, st, k + 1, i);
      k := k + 1 + i;
    }
  }

  /** Where the parts of an if-else stand. */
  lemma ElsePlaced(prog: seq<Instr>, p: nat, s: Stmt, c: Ctx, n: nat, m: nat) returns (j: Code, g: Emitted, y: nat, z: nat)
    requires s.Else? && Placed(prog, p, s, c, n, m)
    ensures j == Jump(s.e, 0, n + 2, n + 2) && At(prog, p, j.instrs)
    ensures y == p + |j.instrs| && y < |prog| && prog[y] == Label(n + 1)
    ensures g == Gen(s.yes, c.(begin := n + 1), j.labels, m) && Placed(prog, y + 1, s.yes, c.(begin := n + 1), j.labels, m)
    ensures z == y + 1 + |g.instrs| && z + 1 < |prog| && prog[z] == Goto(c.after)
    ensures prog[z + 1] == Label(n + 2) && Where(prog, n + 2) == z + 1
    ensures Placed(prog, z + 2, s.no, c.(begin := n + 2), g.labels, g.temps)
    ensures p + |Gen(s, c, n, m).instrs| == z + 2 + |Gen(s.no, c.(begin := n + 2), g.labels, g.temps).instrs|
  {
    hide Where, At, Jump;
    j := Jump(s.e, 0, n + 2, n + 2);
    g := Gen(s.yes, c.(begin := n + 1), j.labels, m);
    var h := Gen(s.no, c.(begin := n + 2), g.labels, g.temps);
    y := p + |j.instrs|;
    z := y + 1 + |g.instrs|;
    ElseParts(prog, p, j.instrs, Label(n + 1), g.instrs, Goto(c.after), Label(n + 2), h.instrs);
    WhereIs(prog, z + 1, n + 2);
  }

  lemma ElseParts(prog: seq<Instr>, p: nat, a: seq<Instr>, l: Instr, b: seq<Instr>, out: Instr, k: Instr, c: seq<Instr>)
    requires At(prog, p, a + [l] + (b + [out] + [k] + c))
    ensures var y, z := p + |a|, p + |a| + 1 + |b|;
            z + 1 < |prog| && At(prog, p, a) && prog[y] == l && At(prog, y + 1, b) && prog[z] == out && prog[z + 1] == k &&
            At(prog, z + 2, c)
  {
    hide At;
    var y, z := p + |a|, p + |a| + 1 + |b|;
    AtSplit(prog, p, a + [l], b + [out] + [k] + c);
    AtSplit(prog, p, a, [l]);
    AtSplit(prog, y + 1, b + [out] + [k], c);
    AtSplit(prog, y + 1, b + [out], [k]);
    AtSplit(prog, y + 1, b, [out]);
    AtOne(prog, y, l);
    AtOne(prog, z, out);
    AtOne(prog, z + 1, k);
  }

  lemma {:induction false} ElseCorrect(prog: seq<Instr>, env: Oracle, s: Stmt, c: Ctx, n: nat, m: nat, st: State, fuel: nat)
    returns (k: nat)
    requires s.Else? && Placed(prog, st.pc, s, c, n, m) && Run(s, env, st.tr, fuel, false).Over?
    ensures Arrived(prog, Exec(prog, env, st, k), Run(s, env, st.tr, fuel, false).out, c, End(st, Gen(s, c, n, m).instrs))
    decreases fuel, s, 1
  {
    hide Exec, Where, At, Jump, Eval, Gen, Placed;
    var j, g, y, z := ElsePlaced(prog, st.pc, s, c, n, m);
    assert UniqueLabels(prog) by { PlacedUnique(prog, st.pc, s, c, n, m); }
    k := JumpCorrect(prog, env, s.e, 0, n + 2, n + 2, st);
    PassLabel(prog, env, st, k);
    var s1 := Exec(prog, env, st, k + 1);
    if Eval(s.e, env, st.tr).value {
      var i := GenCorrect(prog, env, s.yes, c.(begin := n + 1), j.labels, m, s1, fuel);
      ExecAdd(prog, env, st, k + 1, i);
      k := k + 1 + i;
      if Exec(prog, env, st, k).pc == z && Run(s, env, st.tr, fuel, false).out.sig.Normal? {
        TakeGoto(prog, env, st, k);
        k := k + 1;
      }
    } else {
      var i := GenCorrect(prog, env, s.no, c.(begin := n + 2), g.labels, g.temps, s1, fuel);
      ExecAdd(prog, env, st, k + 1, i);
      k := k + 1 + i;
    }
  }

  lemma PlacedUnique(prog: seq<Instr>, p: nat, s: Stmt, c: Ctx, n: nat, m: nat)
    requires Placed(prog, p, s, c, n, m)
    ensures UniqueLabels(prog) && c.begin != 0 && c.after != 0 && 1 <= p && p - 1 < |prog|
    ensures prog[p - 1] == Label(c.begin) && Where(prog, c.begin) == p - 1
  {
    WhereIs(prog, p - 1, c.begin);
  }

  // ----- while -----

  lemma WhilePlaced(prog: seq<Instr>, p: nat, s: Stmt, c: Ctx, n: nat, m: nat) returns (j: Code, y: nat, z: nat)
    requires s.While? && Placed(prog, p, s, c, n, m)
    ensures j == Jump(s.e, 0, c.after, n) && At(prog, p, j.instrs)
    ensures y == p + |j.instrs| && y < |prog| && prog[y] == Label(j.labels + 1)
    ensures Placed(prog, y + 1, s.body, InWhile(c, j.labels + 1), j.labels + 1, m)
    ensures z == y + 1 + |Gen(s.body, InWhile(c, j.labels + 1), j.labels + 1, m).instrs|
    ensures z < |prog| && prog[z] == Goto(c.begin) && p + |Gen(s, c, n, m).instrs| == z + 1
  {
    hide Where, At, Jump;
    j := Jump(s.e, 0, c.after, n);
    var l := j.labels + 1;
    var g := Gen(s.body, InWhile(c, l), l, m);
    y := p + |j.instrs|;
    z := y + 1 + |g.instrs|;
    AtSplit(prog, p, j.instrs + [Label(l)], g.instrs + [Goto(c.begin)]);
    AtSplit(prog, p, j.instrs, [Label(l)]);
    AtSplit(prog, y + 1, g.instrs, [Goto(c.begin)]);
    AtOne(prog, y, Label(l));
    AtOne(prog, z, Goto(c.begin));
  }

  /** One pass through the condition and the body, when the condition holds. */
  lemma {:induction false} WhileBody(prog: seq<Instr>, env: Oracle, s: Stmt, c: Ctx, n: nat, m: nat, st: State, fuel: nat)
    returns (k: nat)
    requires s.While? && Placed(prog, st.pc, s, c, n, m)
    requires var v := Eval(s.e, env, st.tr); v.value && Run(s.body, env, v.tr, fuel, false).Over?
    ensures var r := Run(s.body, env, Eval(s.e, env, st.tr).tr, fuel, false).out;
            var s' := Exec(prog, env, st, k);
            k >= 1 && s'.tr == r.tr && s'.pc == if r.sig.Broke? then Where(prog, c.after) else st.pc
    decreases fuel, s, 0
  {
    hide Exec, At, Jump, Eval, Gen, Placed, Run, UniqueLabels, Where;
    var j, y, z := WhilePlaced(prog, st.pc, s, c, n, m);
    PlacedUnique(prog, st.pc, s, c, n, m);
    k := JumpCorrect(prog, env, s.e, 0, c.after, n, st);
    PassLabel(prog, env, st, k);
    var s1 := Exec(prog, env, st, k + 1);
    var l := j.labels + 1;
    var i := GenCorrect(prog, env, s.body, InWhile(c, l), l, m, s1, fuel);
    ExecAdd(prog, env, st, k + 1, i);
    k := k + 1 + i;
    var r := Run(s.body, env, s1.tr, fuel, false).out;
    if !r.sig.Broke? {
      if Exec(prog, env, st, k).pc == z {
        TakeGoto(prog, env, st, k);
        k := k + 1;
      }
      PassLabel(prog, env, st, k);
      k := k + 1;
    }
  }

  lemma {:induction false} WhileCorrect(prog: seq<Instr>, env: Oracle, s: Stmt, c: Ctx, n: nat, m: nat, st: State, fuel: nat)
    returns (k: nat)
    requires s.While? && Placed(prog, st.pc, s, c, n, m) && Run(s, env, st.tr, fuel, false).Over?
    ensures Arrived(prog, Exec(prog, env, st, k), Run(s, env, st.tr, fuel, false).out, c, End(st, Gen(s, c, n, m).instrs))
    decreases fuel, s, 1
  {
    hide Exec, At, Jump, Eval, Gen, Placed, UniqueLabels, Where;
    var v := Eval(s.e, env, st.tr);
    if v.value {
      k := WhileBody(prog, env, s, c, n, m, st, fuel);
      if !Run(s.body, env, v.tr, fuel, false).out.sig.Broke? {
        var s1 := Exec(prog, env, st, k);
        var i := GenCorrect(prog, env, s, c, n, m, s1, fuel - 1);
        ExecAdd(prog, env, st, k, i);
        k := k + i;
      }
    } else {
      var j, y, z := WhilePlaced(prog, st.pc, s, c, n, m);
      PlacedUnique(prog, st.pc, s, c, n, m);
      k := JumpCorrect(prog, env, s.e, 0, c.after, n, st);
    }
  }

  // ----- do -----

  lemma DoPlaced(prog: seq<Instr>, p: nat, s: Stmt, c: Ctx, n: nat, m: nat) returns (g: Emitted, y: nat)
    requires s.DoWhile? && Placed(prog, p, s, c, n, m)
    ensures g == Gen(s.body, InDo(c, n + 1), n + 1, m) && Placed(prog, p, s.body, InDo(c, n + 1), n + 1, m)
    ensures y == p + |g.instrs| && y < |prog| && prog[y] == Label(n + 1) && Where(prog, n + 1) == y
    ensures var j := Jump(s.e, c.begin, 0, g.labels);
            At(prog, y + 1, j.instrs) && p + |Gen(s, c, n, m).instrs| == y + 1 + |j.instrs|
  {
    hide Where, At, Jump;
    g := Gen(s.body, InDo(c, n + 1), n + 1, m);
    y := p + |g.instrs|;
    var j := Jump(s.e, c.begin, 0, g.labels);
    AtSplit(prog, p, g.instrs + [Label(n + 1)], j.instrs);
    AtSplit(prog, p, g.instrs, [Label(n + 1)]);
    MeetAtLabel(prog, y, n + 1);
  }

  /** The condition as the code sees it: `continue` goes back without testing. */
  function Again(e: BoolExpr, env: Oracle, r: Out): Verdict {
    if r.sig.Continued? then Verdict(true, r.tr) else Eval(e, env, r.tr)
  }

  /** One pass through the body and the condition, unless the body breaks. */
  lemma {:induction false} DoBody(prog: seq<Instr>, env: Oracle, s: Stmt, c: Ctx, n: nat, m: nat, st: State, fuel: nat)
    returns (k: nat)
    requires s.DoWhile? && Placed(prog, st.pc, s, c, n, m) && Run(s.body, env, st.tr, fuel, false).Over?
    ensures var r := Run(s.body, env, st.tr, fuel, false).out;
            var v := Again(s.e, env, r);
            var s' := Exec(prog, env, st, k);
            if r.sig.Broke? then s'.tr == r.tr && s'.pc == Where(prog, c.after)
            else s'.tr == v.tr && (if v.value then k >= 1 && s'.pc == st.pc else s'.pc == End(st, Gen(s, c, n, m).instrs))
    decreases fuel, s, 0
  {
    hide Exec, At, Jump, Eval, Gen, Placed, Run, UniqueLabels, Where;
    var g, y := DoPlaced(prog, st.pc, s, c, n, m);
    PlacedUnique(prog, st.pc, s, c, n, m);
    k := GenCorrect(prog, env, s.body, InDo(c, n + 1), n + 1, m, st, fuel);
    var r := Run(s.body, env, st.tr, fuel, false).out;
    if r.sig.Normal? {
      PassLabel(prog, env, st, k);
      var s1 := Exec(prog, env, st, k + 1);
      var i := JumpCorrect(prog, env, s.e, c.begin, 0, g.labels, s1);
      ExecAdd(prog, env, st, k + 1, i);
      k := k + 1 + i;
    }
    if !r.sig.Broke? && Again(s.e, env, r).value {
      PassLabel(prog, env, st, k);
      k := k + 1;
    }
  }

  lemma {:induction false} DoCorrect(prog: seq<Instr>, env: Oracle, s: Stmt, c: Ctx, n: nat, m: nat, st: State, fuel: nat)
    returns (k: nat)
    requires s.DoWhile? && Placed(prog, st.pc, s, c, n, m) && Run(s, env, st.tr, fuel, false).Over?
    ensures Arrived(prog, Exec(prog, env, st, k), Run(s, env, st.tr, fuel, false).out, c, End(st, Gen(s, c, n, m).instrs))
    decreases fuel, s, 1
  {
    hide Exec, At, Eval, Gen, Placed, UniqueLabels, Where;
    k := DoBody(prog, env, s, c, n, m, st, fuel);
    var r := Run(s.body, env, st.tr, fuel, false).out;
    if !r.sig.Broke? && Again(s.e, env, r).value {
      var i := GenCorrect(prog, env, s, c, n, m, Exec(prog, env, st, k), fuel - 1);
      ExecAdd(prog, env, st, k, i);
      k := k + i;
    }
  }

  // ----- a run of the statement that is not over keeps the machine busy -----

  /** After at least `fuel` steps the machine is still inside the program, having produced the events `tr`. */
  predicate Busy(prog: seq<Instr>, env: Oracle, st: State, k: nat, fuel: nat, tr: Trace) {
    k >= fuel && Exec(prog, env, st, k).pc < |prog| && Exec(prog, env, st, k).tr == tr
  }

  lemma BusyLater(prog: seq<Instr>, env: Oracle, st: State, j: nat, k: nat, fuel: nat, tr: Trace)
    requires Busy(prog, env, Exec(prog, env, st, j), k, fuel, tr)
    ensures Busy(prog, env, st, j + k, fuel + j, tr)
  {
    ExecAdd(prog, env, st, j, k);
  }

  lemma {:induction false} GenBusy(prog: seq<Instr>, env: Oracle, s: Stmt, c: Ctx, n: nat, m: nat, st: State, fuel: nat)
    returns (k: nat)
    requires Placed(prog, st.pc, s, c, n, m) && Run(s, env, st.tr, fuel, false).Cut?
    ensures Busy(prog, env, st, k, fuel, Run(s, env, st.tr, fuel, false).tr)
    decreases fuel, s, 1
  {
    hide Exec, Where, At, Jump, Eval, Gen, Placed, Run, Busy;
    k := 0;
    match s
    case Seq(_, _) => k := SeqBusy(prog, env, s, c, n, m, st, fuel);
    case If(_, _) => k := IfBusy(prog, env, s, c, n, m, st, fuel);
    case Else(_, _, _) => k := ElseBusy(prog, env, s, c, n, m, st, fuel);
    case While(_, _) => k := WhileBusy(prog, env, s, c, n, m, st, fuel);
    case DoWhile(_, _) => k := DoBusy(prog, env, s, c, n, m, st, fuel);
    case _ => OneStepEnds(s, env, st.tr, fuel);
  }

  lemma OneStepEnds(s: Stmt, env: Oracle, tr: Trace, fuel: nat)
    requires s.Null? || s.Simple? || s.SetBool? || s.Break? || s.Continue?
    ensures Run(s, env, tr, fuel, false).Over?
  {
  }

  lemma {:induction false} SeqBusy(prog: seq<Instr>, env: Oracle, s: Stmt, c: Ctx, n: nat, m: nat, st: State, fuel: nat)
    returns (k: nat)
    requires s.Seq? && Placed(prog, st.pc, s, c, n, m) && Run(s, env, st.tr, fuel, false).Cut?
    ensures Busy(prog, env, st, k, fuel, Run(s, env, st.tr, fuel, false).tr)
    decreases fuel, s, 0
  {
    hide Exec, Where, At;
    if s.first.Null? {
      k := GenBusy(prog, env, s.second, c, n, m, st, fuel);
    } else if s.second.Null? {
      k := GenBusy(prog, env, s.first, c, n, m, st, fuel);
    } else {
      var g := SeqPlaced(prog, st.pc, s, c, n, m);
      if Run(s.first, env, st.tr, fuel, false).Cut? {
        k := GenBusy(prog, env, s.first, c.(after := n + 1), n + 1, m, st, fuel);
      } else {
        var j := GenCorrect(prog, env, s.first, c.(after := n + 1), n + 1, m, st, fuel);
        PassLabel(prog, env, st, j);
        var s1 := Exec(prog, env, st, j + 1);
        k := GenBusy(prog, env, s.second, c.(begin := n + 1), g.labels, g.temps, s1, fuel);
        BusyLater(prog, env, st, j + 1, k, fuel, Run(s, env, st.tr, fuel, false).tr);
        k := j + 1 + k;
      }
    }
  }

  lemma {:induction false} IfBusy(prog: seq<Instr>, env: Oracle, s: Stmt, c: Ctx, n: nat, m: nat, st: State, fuel: nat)
    returns (k: nat)
    requires s.If? && Placed(prog, st.pc, s, c, n, m) && Run(s, env, st.tr, fuel, false).Cut?
    ensures Busy(prog, env, st, k, fuel, Run(s, env, st.tr, fuel, false).tr)
    decreases fuel, s, 0
  {
    hide Exec, Where, At, Jump, Eval;
    var j := Jump(s.e, 0, c.after, n + 1);
    var g := Gen(s.body, c.(begin := n + 1), j.labels, m);
    AtSplit(prog, st.pc, j.instrs + [Label(n + 1)], g.instrs);
    AtSplit(prog, st.pc, j.instrs, [Label(n + 1)]);
    var i := JumpCorrect(prog, env, s.e, 0, c.after, n + 1, st);
    MeetAtLabel(prog, st.pc + |j.instrs|, n + 1);
    PassLabel(prog, env, st, i);
    k := GenBusy(prog, env, s.body, c.(begin := n + 1), j.labels, m, Exec(prog, env, st, i + 1), fuel);
    BusyLater(prog, env, st, i + 1, k, fuel, Run(s, env, st.tr, fuel, false).tr);
    k := i + 1 + k;
  }

  lemma {:induction false} ElseBusy(prog: seq<Instr>, env: Oracle, s: Stmt, c: Ctx, n: nat, m: nat, st: State, fuel: nat)
    returns (k: nat)
    requires s.Else? && Placed(prog, st.pc, s, c, n, m) && Run(s, env, st.tr, fuel, false).Cut?
    ensures Busy(prog, env, st, k, fuel, Run(s, env, st.tr, fuel, false).tr)
    decreases fuel, s, 0
  {
    hide Exec, Where, At, Jump, Eval, Gen, Placed;
    var j, g, y, z := ElsePlaced(prog, st.pc, s, c, n, m);
    assert UniqueLabels(prog) by { PlacedUnique(prog, st.pc, s, c, n, m); }
    var i := JumpCorrect(prog, env, s.e, 0, n + 2, n + 2, st);
    PassLabel(prog, env, st, i);
    var s1 := Exec(prog, env, st, i + 1);
    if Eval(s.e, env, st.tr).value {
      k := GenBusy(prog, env, s.yes, c.(begin := n + 1), j.labels, m, s1, fuel);
    } else {
      k := GenBusy(prog, env, s.no, c.(begin := n + 2), g.labels, g.temps, s1, fuel);
    }
    BusyLater(prog, env, st, i + 1, k, fuel, Run(s, env, st.tr, fuel, false).tr);
    k := i + 1 + k;
  }

  lemma {:induction false} WhileBusy(prog: seq<Instr>, env: Oracle, s: Stmt, c: Ctx, n: nat, m: nat, st: State, fuel: nat)
    returns (k: nat)
    requires s.While? && Placed(prog, st.pc, s, c, n, m) && Run(s, env, st.tr, fuel, false).Cut?
    ensures Busy(prog, env, st, k, fuel, Run(s, env, st.tr, fuel, false).tr)
    decreases fuel, s, 0
  {
    hide Exec, At, Jump, Eval, Gen, Placed, UniqueLabels, Where;
    var j, y, z := WhilePlaced(prog, st.pc, s, c, n, m);
    var v := Eval(s.e, env, st.tr);
    if Run(s.body, env, v.tr, fuel, false).Cut? {
      PlacedUnique(prog, st.pc, s, c, n, m);
      var i := JumpCorrect(prog, env, s.e, 0, c.after, n, st);
      PassLabel(prog, env, st, i);
      var s1 := Exec(prog, env, st, i + 1);
      k := GenBusy(prog, env, s.body, InWhile(c, j.labels + 1), j.labels + 1, m, s1, fuel);
      BusyLater(prog, env, st, i + 1, k, fuel, Run(s, env, st.tr, fuel, false).tr);
      k := i + 1 + k;
    } else {
      k := WhileBody(prog, env, s, c, n, m, st, fuel);
      if fuel > 0 {
        var i := GenBusy(prog, env, s, c, n, m, Exec(prog, env, st, k), fuel - 1);
        BusyLater(prog, env, st, k, i, fuel - 1, Run(s, env, st.tr, fuel, false).tr);
        k := k + i;
      }
    }
  }

  lemma {:induction false} DoBusy(prog: seq<Instr>, env: Oracle, s: Stmt, c: Ctx, n: nat, m: nat, st: State, fuel: nat)
    returns (k: nat)
    requires s.DoWhile? && Placed(prog, st.pc, s, c, n, m) && Run(s, env, st.tr, fuel, false).Cut?
    ensures Busy(prog, env, st, k, fuel, Run(s, env, st.tr, fuel, false).tr)
    decreases fuel, s, 0
  {
    hide Exec, At, Jump, Eval, Gen, Placed, UniqueLabels, Where;
    var g, y := DoPlaced(prog, st.pc, s, c, n, m);
    if Run(s.body, env, st.tr, fuel, false).Cut? {
      k := GenBusy(prog, env, s.body, InDo(c, n + 1), n + 1, m, st, fuel);
    } else {
      k := DoBody(prog, env, s, c, n, m, st, fuel);
      if fuel > 0 {
        var i := GenBusy(prog, env, s, c, n, m, Exec(prog, env, st, k), fuel - 1);
        BusyLater(prog, env, st, k, i, fuel - 1, Run(s, env, st.tr, fuel, false).tr);
        k := k + i;
      }
    }
  }

  // ----- whole programs -----

  /** Every break and continue is inside a loop; the parser rejects the others. */
  predicate Enclosed(s: Stmt, inLoop: bool) {
    match s
    case Seq(a, b) => Enclosed(a, inLoop) && Enclosed(b, inLoop)
    case If(_, body) => Enclosed(body, inLoop)
    case Else(_, yes, no) => Enclosed(yes, inLoop) && Enclosed(no, inLoop)
    case While(_, body) => Enclosed(body, true)
    case DoWhile(body, _) => Enclosed(body, true)
    case Break => inLoop
    case Continue => inLoop
    case _ => true
  }

  lemma {:induction false} EndsNormally(s: Stmt, env: Oracle, tr: Trace, fuel: nat, retest: bool)
    requires Enclosed(s, false)
    ensures var r := Run(s, env, tr, fuel, retest); r.Over? ==> r.out.sig.Normal?
    decreases fuel, s
  {
    match s
    case Seq(a, b) =>
      EndsNormally(a, env, tr, fuel, retest);
      var r := Run(a, env, tr, fuel, retest);
      if r.Over? {
        EndsNormally(b, env, r.out.tr, fuel, retest);
      }
    case If(e, body) => EndsNormally(body, env, Eval(e, env, tr).tr, fuel, retest);
    case Else(e, yes, no) =>
      EndsNormally(yes, env, Eval(e, env, tr).tr, fuel, retest);
      EndsNormally(no, env, Eval(e, env, tr).tr, fuel, retest);
    case While(e, body) => LoopEndsNormally(s, env, tr, fuel, retest);
    case DoWhile(body, e) => LoopEndsNormally(s, env, tr, fuel, retest);
    case _ =>
  }

  lemma {:induction false} LoopEndsNormally(s: Stmt, env: Oracle, tr: Trace, fuel: nat, retest: bool)
    requires s.While? || s.DoWhile?
    ensures var r := Run(s, env, tr, fuel, retest); r.Over? ==> r.out.sig.Normal?
    decreases fuel
  {
    if fuel > 0 {
      var r := Run(s.body, env, if s.While? then Eval(s.e, env, tr).tr else tr, fuel, retest);
      if r.Over? {
        LoopEndsNormally(s, env, r.out.tr, fuel - 1, retest);
        LoopEndsNormally(s, env, Eval(s.e, env, r.out.tr).tr, fuel - 1, retest);
      }
    }
  }

  /** What the parser prints for a program. */
  function Program(s: Stmt): seq<Instr> {
    [Label(1)] + Gen(s, Ctx(1, 2, 0, 0), 2, 0).instrs + [Label(2)]
  }

  const START := State(0, [], map[])

  lemma ProgramLabelsUnique(s: Stmt)
    ensures UniqueLabels(Program(s))
  {
    hide Gen;
    var c := Ctx(1, 2, 0, 0);
    var g := Gen(s, c, 2, 0);
    GenLabelsFresh(s, c, 2, 0);
    assert g.instrs + [] == g.instrs;
    FreshInsert(g.instrs, [], 1, 2, g.labels);
    assert g.instrs + [Label(2)] + [] == [] + (g.instrs + [Label(2)]);
    FreshInsert([], g.instrs + [Label(2)], 0, 1, g.labels);
    assert [] + [Label(1)] + (g.instrs + [Label(2)]) == Program(s);
  }

  lemma AtWhole(prog: seq<Instr>)
    ensures At(prog, 0, prog)
  {
    assert prog[0..|prog|] == prog;
  }

  lemma ProgramPlaced(s: Stmt)
    ensures Placed(Program(s), 1, s, Ctx(1, 2, 0, 0), 2, 0)
    ensures var end := 1 + |Gen(s, Ctx(1, 2, 0, 0), 2, 0).instrs|;
            |Program(s)| == end + 1 && Program(s)[end] == Label(2) && Where(Program(s), 2) == end
  {
    hide Gen, UniqueLabels, Where;
    var prog := Program(s);
    var g := Gen(s, Ctx(1, 2, 0, 0), 2, 0).instrs;
    ProgramLabelsUnique(s);
    AtWhole(prog);
    AtSplit(prog, 0, [Label(1)] + g, [Label(2)]);
    AtSplit(prog, 0, [Label(1)], g);
    MeetAtLabel(prog, 1 + |g|, 2);
  }

  lemma Started(s: Stmt, env: Oracle)
    ensures Exec(Program(s), env, START, 1) == START.(pc := 1)
  {
    ExecOne(Program(s), env, START);
  }

  /** A program that terminates is run by the machine to its end, with the same events. */
  lemma ProgramRuns(s: Stmt, env: Oracle, fuel: nat) returns (k: nat)
    requires Enclosed(s, false) && Run(s, env, [], fuel, false).Over?
    ensures var s' := Exec(Program(s), env, START, k);
            s'.pc == |Program(s)| && s'.tr == Run(s, env, [], fuel, false).out.tr
  {
    hide Exec, Gen, Run, Where, Program, Placed;
    var prog := Program(s);
    ProgramPlaced(s);
    Started(s, env);
    EndsNormally(s, env, [], fuel, false);
    var i := GenCorrect(prog, env, s, Ctx(1, 2, 0, 0), 2, 0, START.(pc := 1), fuel);
    ExecAdd(prog, env, START, 1, i);
    PassLabel(prog, env, START, 1 + i);
    k := 1 + i + 1;
  }

  lemma ProgramBusy(s: Stmt, env: Oracle, fuel: nat) returns (k: nat)
    requires Run(s, env, [], fuel, false).Cut?
    ensures Busy(Program(s), env, START, k, fuel, Run(s, env, [], fuel, false).tr)
  {
    hide Exec, Gen, Run, Where, Program, Placed;
    ProgramPlaced(s);
    Started(s, env);
    k := GenBusy(Program(s), env, s, Ctx(1, 2, 0, 0), 2, 0, START.(pc := 1), fuel);
    BusyLater(Program(s), env, START, 1, k, fuel, Run(s, env, [], fuel, false).tr);
    k := 1 + k;
  }

  ghost predicate Terminates(s: Stmt, env: Oracle, retest: bool) {
    exists fuel: nat :: Run(s, env, [], fuel, retest).Over?
  }

  ghost predicate Halts(prog: seq<Instr>, env: Oracle) {
    exists k: nat :: Exec(prog, env, START, k).pc >= |prog|
  }

  /** The machine halts on the generated code exactly when the program terminates. */
  lemma HaltsIffTerminates(s: Stmt, env: Oracle)
    requires Enclosed(s, false)
    ensures Halts(Program(s), env) <==> Terminates(s, env, false)
  {
    hide Exec, Gen, Run, Where, Program;
    if fuel: nat :| Run(s, env, [], fuel, false).Over? {
      var k := ProgramRuns(s, env, fuel);
    }
    if k: nat :| Exec(Program(s), env, START, k).pc >= |Program(s)| {
      if Run(s, env, [], k, false).Cut? {
        var j := ProgramBusy(s, env, k);
        ExecAdd(Program(s), env, START, k, j - k);
        HaltedStays(Program(s), env, Exec(Program(s), env, START, k), j - k);
      }
    }
  }

  // ----- programs that run forever -----

  lemma {:induction false} ExecExtends(prog: seq<Instr>, env: Oracle, s: State, k: nat)
    ensures IsPrefix(s.tr, Exec(prog, env, s, k).tr)
    decreases k
  {
    if k > 0 {
      ExecExtends(prog, env, Step(prog, env, s), k - 1);
      PrefixTrans(s.tr, Step(prog, env, s).tr, Exec(prog, env, s, k).tr);
    }
  }

  /** Some moment, after at least `fuel` steps, when the machine goes on and exactly `tr` has happened. */
  ghost predicate PassesThrough(prog: seq<Instr>, env: Oracle, fuel: nat, tr: Trace) {
    exists k: nat :: Busy(prog, env, START, k, fuel, tr)
  }

  /** A program that never ends and its code go through the same events: each gets as far as the other. */
  lemma DivergingRunsAgree(s: Stmt, env: Oracle)
    requires !Terminates(s, env, false)
    ensures forall fuel: nat :: PassesThrough(Program(s), env, fuel, Run(s, env, [], fuel, false).tr)
    ensures forall k: nat :: IsPrefix(Exec(Program(s), env, START, k).tr, Run(s, env, [], k, false).tr)
  {
    hide Exec, Run, Program;
    forall fuel: nat
      ensures Run(s, env, [], fuel, false).Cut?
      ensures PassesThrough(Program(s), env, fuel, Run(s, env, [], fuel, false).tr)
      ensures IsPrefix(Exec(Program(s), env, START, fuel).tr, Run(s, env, [], fuel, false).tr)
    {
      var j := ProgramBusy(s, env, fuel);
      ExecAdd(Program(s), env, START, fuel, j - fuel);
      ExecExtends(Program(s), env, Exec(Program(s), env, START, fuel), j - fuel);
    }
  }

  // ----- continue in a do loop -----

  /** No continue belongs to a do loop. */
  predicate NoContinueInDo(s: Stmt, inDo: bool) {
    match s
    case Seq(a, b) => NoContinueInDo(a, inDo) && NoContinueInDo(b, inDo)
    case If(_, body) => NoContinueInDo(body, inDo)
    case Else(_, yes, no) => NoContinueInDo(yes, inDo) && NoContinueInDo(no, inDo)
    case While(_, body) => NoContinueInDo(body, false)
    case DoWhile(body, _) => NoContinueInDo(body, true)
    case Continue => !inDo
    case _ => true
  }

  /** Without one, the code's meaning is the usual one, in which continue goes to the loop's condition. */
  lemma {:induction false} RetestAgrees(s: Stmt, env: Oracle, tr: Trace, fuel: nat, inDo: bool)
    requires NoContinueInDo(s, inDo)
    ensures var r := Run(s, env, tr, fuel, false);
            Run(s, env, tr, fuel, true) == r && (inDo && r.Over? ==> !r.out.sig.Continued?)
    decreases fuel, s
  {
    hide Eval;
    match s
    case Seq(a, b) =>
      RetestAgrees(a, env, tr, fuel, inDo);
      var r := Run(a, env, tr, fuel, false);
      if r.Over? {
        RetestAgrees(b, env, r.out.tr, fuel, inDo);
      }
    case If(e, body) => RetestAgrees(body, env, Eval(e, env, tr).tr, fuel, inDo);
    case Else(e, yes, no) =>
      RetestAgrees(yes, env, Eval(e, env, tr).tr, fuel, inDo);
      RetestAgrees(no, env, Eval(e, env, tr).tr, fuel, inDo);
    case While(e, body) =>
      LoopEndsNormally(s, env, tr, fuel, false);
      var v := Eval(e, env, tr);
      RetestAgrees(body, env, v.tr, fuel, false);
      var r := Run(body, env, v.tr, fuel, false);
      if r.Over? && fuel > 0 {
        RetestAgrees(s, env, r.out.tr, fuel - 1, inDo);
      }
    case DoWhile(body, e) =>
      LoopEndsNormally(s, env, tr, fuel, false);
      RetestAgrees(body, env, tr, fuel, true);
      var r := Run(body, env, tr, fuel, false);
      if r.Over? && fuel > 0 {
        RetestAgrees(s, env, Eval(e, env, r.out.tr).tr, fuel - 1, inDo);
      }
    case _ =>
  }

  /** With one, it need not be: `do continue; while (false);` should end at once, and its code never halts. */
  lemma ContinueInDoLoops(env: Oracle)
    ensures var s := DoWhile(Continue, Const(false));
            Enclosed(s, false) && Terminates(s, env, true) && !Halts(Program(s), env)
  {
    var s := DoWhile(Continue, Const(false));
    assert Run(s, env, [], 0, true) == Over(Out(Normal, []));
    forall fuel: nat ensures Run(s, env, [], fuel, false).Cut? {
      ContinueNeverEnds(env, fuel);
    }
    HaltsIffTerminates(s, env);
  }

  lemma {:induction false} ContinueNeverEnds(env: Oracle, fuel: nat)
    ensures Run(DoWhile(Continue, Const(false)), env, [], fuel, false).Cut?
  {
    if fuel > 0 {
      ContinueNeverEnds(env, fuel - 1);
    }
  }

  // ----- a continue in a do loop that does no harm -----

  /** More rounds do not change a run that is over. */
  lemma {:induction false} MoreFuel(s: Stmt, env: Oracle, tr: Trace, fuel: nat, more: nat, retest: bool)
    requires Run(s, env, tr, fuel, retest).Over? && fuel <= more
    ensures Run(s, env, tr, more, retest) == Run(s, env, tr, fuel, retest)
    decreases fuel, s
  {
    hide Eval;
    match s
    case Seq(a, b) =>
      MoreFuel(a, env, tr, fuel, more, retest);
      var r := Run(a, env, tr, fuel, retest);
      if r.out.sig.Normal? {
        MoreFuel(b, env, r.out.tr, fuel, more, retest);
      }
    case If(e, body) =>
      var v := Eval(e, env, tr);
      if v.value {
        MoreFuel(body, env, v.tr, fuel, more, retest);
      }
    case Else(e, yes, no) =>
      var v := Eval(e, env, tr);
      MoreFuel(if v.value then yes else no, env, v.tr, fuel, more, retest);
    case While(e, body) =>
      var v := Eval(e, env, tr);
      if v.value {
        MoreFuel(body, env, v.tr, fuel, more, retest);
        var r := Run(body, env, v.tr, fuel, retest);
        if !r.out.sig.Broke? {
          MoreFuel(s, env, r.out.tr, fuel - 1, more - 1, retest);
        }
      }
    case DoWhile(body, e) =>
      MoreFuel(body, env, tr, fuel, more, retest);
      var r := Run(body, env, tr, fuel, retest).out;
      var v := if r.sig.Continued? && !retest then Verdict(true, r.tr) else Eval(e, env, r.tr);
      if !r.sig.Broke? && v.value {
        MoreFuel(s, env, v.tr, fuel - 1, more - 1, retest);
      }
    case _ =>
  }

  /** do { if (x) continue; else break; } while (x); */
  function Harmless(x: Name): Stmt { DoWhile(Else(Test(x), Continue, Break), Test(x)) }

  /** Each round of the usual loop tests twice, each round of the code's loop once, with the same outcomes. */
  lemma {:induction false} HarmlessRounds(x: Name, env: Oracle, tr: Trace, fuel: nat)
    ensures Run(Harmless(x), env, tr, fuel, true) == Run(Harmless(x), env, tr, 2 * fuel + 1, false)
    decreases fuel
  {
    var s, t := Harmless(x), tr + [Tested(x)];
    OneRound(x, env, tr, fuel, true);
    OneRound(x, env, tr, 2 * fuel + 1, false);
    OneRound(x, env, t, 2 * fuel, false);
    if env(t) && env(t + [Tested(x)]) && fuel > 0 {
      HarmlessRounds(x, env, t + [Tested(x)], fuel - 1);
    }
  }

  lemma OneRound(x: Name, env: Oracle, tr: Trace, fuel: nat, retest: bool)
    ensures var t := tr + [Tested(x)];
            var u := if retest then t + [Tested(x)] else t;
            Run(Harmless(x), env, tr, fuel, retest) ==
            if !env(t) then Over(Out(Normal, t))
            else if retest && !env(u) then Over(Out(Normal, u))
            else if fuel == 0 then Cut(u)
            else Run(Harmless(x), env, u, fuel - 1, retest)
  {
    var body := Else(Test(x), Continue, Break);
    var t := tr + [Tested(x)];
    assert Run(body, env, tr, fuel, retest) == Over(Out(if env(t) then Continued else Broke, t));
  }

  /** A continue in a do loop need not matter: this program ends, under every oracle, if and only if it should, and
      with the same events. */
  lemma ContinueMayBeHarmless(x: Name, env: Oracle)
    ensures !NoContinueInDo(Harmless(x), false)
    ensures Terminates(Harmless(x), env, true) <==> Terminates(Harmless(x), env, false)
    ensures forall m: nat, n: nat ::
              Run(Harmless(x), env, [], m, true).Over? && Run(Harmless(x), env, [], n, false).Over? ==>
              Run(Harmless(x), env, [], m, true) == Run(Harmless(x), env, [], n, false)
  {
    hide Run;
    var s := Harmless(x);
    assert !NoContinueInDo(Else(Test(x), Continue, Break), true);
    if m: nat :| Run(s, env, [], m, true).Over? {
      HarmlessRounds(x, env, [], m);
    }
    if n: nat :| Run(s, env, [], n, false).Over? {
      MoreFuel(s, env, [], n, 2 * n + 1, false);
      HarmlessRounds(x, env, [], n);
    }
    forall m: nat, n: nat | Run(s, env, [], m, true).Over? && Run(s, env, [], n, false).Over?
      ensures Run(s, env, [], m, true) == Run(s, env, [], n, false)
    {
      HarmlessRounds(x, env, [], m);
      var big := 2 * m + 1 + n;
      MoreFuel(s, env, [], 2 * m + 1, big, false);
      MoreFuel(s, env, [], n, big, false);
    }
  }
}

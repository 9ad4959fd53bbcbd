/** Statements, their meaning, and the code that the front end generates for them. */
module Statements {
  import opened JumpMachine
  import opened ShortCircuit

  /** `Simple` is an assignment without boolean operators; `SetBool` assigns a constant, comparison, or `&&`, `||`, `!`. */
  datatype Stmt =
    | Null
    | Simple(x: Name)
    | SetBool(x: Name, e: BoolExpr)
    | Seq(first: Stmt, second: Stmt)
    | If(e: BoolExpr, body: Stmt)
    | Else(e: BoolExpr, yes: Stmt, no: Stmt)
    | While(e: BoolExpr, body: Stmt)
    | DoWhile(body: Stmt, e: BoolExpr)
    | Break
    | Continue

  // ----- meaning -----

  datatype Signal = Normal | Broke | Continued

  datatype Out = Out(sig: Signal, tr: Trace)

  /** A run that is over, or the events of one that was cut off. */
  datatype Ran = Over(out: Out) | Cut(tr: Trace)

  /** Runs a statement, going round loops at most `fuel` times on any path; a run that is not over by then is cut off.
      `retest` says whether `continue` in a do loop evaluates the condition, or starts the body again at once. */
  function Run(s: Stmt, env: Oracle, tr: Trace, fuel: nat, retest: bool): Ran
    decreases fuel, s
  {
    match s
    case Null => Over(Out(Normal, tr))
    case Simple(x) => Over(Out(Normal, tr + [Performed(x)]))
    case SetBool(x, e) =>
      var v := Eval(e, env, tr);
      Over(Out(Normal, v.tr + [Stored(x, v.value)]))
    case Seq(first, second) =>
      var r := Run(first, env, tr, fuel, retest);
      if r.Cut? || !r.out.sig.Normal? then r else Run(second, env, r.out.tr, fuel, retest)
    case If(e, body) =>
      var v := Eval(e, env, tr);
      if v.value then Run(body, env, v.tr, fuel, retest) else Over(Out(Normal, v.tr))
    case Else(e, yes, no) =>
      var v := Eval(e, env, tr);
      if v.value then Run(yes, env, v.tr, fuel, retest) else Run(no, env, v.tr, fuel, retest)
    case While(e, body) =>
      var v := Eval(e, env, tr);
      if !v.value then Over(Out(Normal, v.tr))
      else
        var r := Run(body, env, v.tr, fuel, retest);
        if r.Cut? then r
        else if r.out.sig.Broke? then Over(Out(Normal, r.out.tr))
        else if fuel == 0 then Cut(r.out.tr)
        else Run(s, env, r.out.tr, fuel - 1, retest)
    case DoWhile(body, e) =>
      var r := Run(body, env, tr, fuel, retest);
      if r.Cut? then r
      else if r.out.sig.Broke? then Over(Out(Normal, r.out.tr))
      else
        var v := if r.out.sig.Continued? && !retest then Verdict(true, r.out.tr) else Eval(e, env, r.out.tr);
        if !v.value then Over(Out(Normal, v.tr))
        else if fuel == 0 then Cut(v.tr)
        else Run(s, env, v.tr, fuel - 1, retest)
    case Break => Over(Out(Broke, tr))
    case Continue => Over(Out(Continued, tr))
  }

  // ----- code generation -----

  /** The labels gen is given, and those of the enclosing loop. */
  datatype Ctx = Ctx(begin: nat, after: nat, outerAfter: nat, outerBegin: nat)

  datatype Emitted = Emitted(instrs: seq<Instr>, labels: nat, temps: nat)

  function StoreLogical(x: Name, f: nat, a: nat, temp: nat): seq<Instr> {
    [SetTemp(temp, true), Goto(a), Label(f), SetTemp(temp, false), Label(a), StoreTemp(x, temp)]
  }

  /** gen(begin, after) when `n` labels and `m` temporaries have been drawn. */
  function Gen(s: Stmt, c: Ctx, n: nat, m: nat): (g: Emitted)
    ensures n <= g.labels
    decreases s
  {
    match s
    case Null => Emitted([], n, m)
    case Simple(x) => Emitted([Perform(x)], n, m)
    case SetBool(x, e) =>
      if e.Const? then Emitted([StoreConst(x, e.v)], n, m)
      else
        var j := Jump(e, 0, n + 1, n + 2);
        Emitted(j.instrs + StoreLogical(x, n + 1, n + 2, m + 1), j.labels, m + 1)
    case Seq(first, second) =>
      if first.Null? then Gen(second, c, n, m)
      else if second.Null? then Gen(first, c, n, m)
      else
        var g := Gen(first, c.(after := n + 1), n + 1, m);
        var h := Gen(second, c.(begin := n + 1), g.labels, g.temps);
        Emitted(g.instrs + [Label(n + 1)] + h.instrs, h.labels, h.temps)
    case If(e, body) =>
      var j := Jump(e, 0, c.after, n + 1);
      var g := Gen(body, c.(begin := n + 1), j.labels, m);
      Emitted(j.instrs + [Label(n + 1)] + g.instrs, g.labels, g.temps)
    case Else(e, yes, no) =>
      var j := Jump(e, 0, n + 2, n + 2);
      var g := Gen(yes, c.(begin := n + 1), j.labels, m);
      var h := Gen(no, c.(begin := n + 2), g.labels, g.temps);
      Emitted(j.instrs + [Label(n + 1)] + (g.instrs + [Goto(c.after)] + [Label(n + 2)] + h.instrs), h.labels, h.temps)
    case While(e, body) =>
      var j := Jump(e, 0, c.after, n);
      var g := Gen(body, InWhile(c, j.labels + 1), j.labels + 1, m);
      Emitted(j.instrs + [Label(j.labels + 1)] + (g.instrs + [Goto(c.begin)]), g.labels, g.temps)
    case DoWhile(body, e) =>
      var g := Gen(body, InDo(c, n + 1), n + 1, m);
      var j := Jump(e, c.begin, 0, g.labels);
      Emitted(g.instrs + [Label(n + 1)] + j.instrs, j.labels, g.temps)
    case Break => Emitted([Goto(c.outerAfter)], n, m)
    case Continue => Emitted([Goto(c.outerBegin)], n, m)
  }

  function InWhile(c: Ctx, l: nat): Ctx { Ctx(l, c.begin, c.after, c.begin) }

  function InDo(c: Ctx, l: nat): Ctx { Ctx(c.begin, l, c.after, c.begin) }

  // ----- labels are fresh -----

  predicate Fresh(code: seq<Instr>, lo: nat, hi: nat) { UniqueLabels(code) && LabelsWithin(code, lo, hi) }

  lemma FreshConcat(a: seq<Instr>, b: seq<Instr>, lo: nat, mid: nat, hi: nat)
    requires lo <= mid <= hi && Fresh(a, lo, mid) && Fresh(b, mid, hi)
    ensures Fresh(a + b, lo, hi)
  {
    UniqueConcat(a, b, lo, mid, hi);
  }

  lemma FreshInsert(a: seq<Instr>, b: seq<Instr>, lo: nat, l: nat, hi: nat)
    requires lo < l <= hi && Fresh(a + b, l, hi)
    ensures Fresh(a + [Label(l)] + b, lo, hi)
  {
    UniqueInsert(a, b, lo, l, hi);
  }

  lemma FreshOne(i: Instr, lo: nat, hi: nat)
    requires i.Label? ==> lo < i.l <= hi
    ensures Fresh([i], lo, hi)
  {
  }

  lemma FreshLogical(code: seq<Instr>, x: Name, n: nat, temp: nat, hi: nat)
    requires n + 2 <= hi && Fresh(code, n + 2, hi)
    ensures Fresh(code + StoreLogical(x, n + 1, n + 2, temp), n, hi)
  {
    var a, b, c := [SetTemp(temp, true), Goto(n + 2)], [SetTemp(temp, false)], [StoreTemp(x, temp)];
    assert Fresh(a + (b + c), hi, hi);
    FreshConcat(code, a + (b + c), n + 2, hi, hi);
    assert code + (a + (b + c)) == (code + a + b) + c;
    FreshInsert(code + a + b, c, n + 1, n + 2, hi);
    assert (code + a + b) + [Label(n + 2)] + c == (code + a) + (b + [Label(n + 2)] + c);
    FreshInsert(code + a, b + [Label(n + 2)] + c, n, n + 1, hi);
    assert (code + a) + [Label(n + 1)] + (b + [Label(n + 2)] + c) == code + StoreLogical(x, n + 1, n + 2, temp);
  }

  lemma FreshElse(j: seq<Instr>, g: seq<Instr>, out: Instr, h: seq<Instr>, n: nat, p: nat, q: nat, hi: nat)
    requires n + 2 <= p <= q <= hi && !out.Label?
    requires Fresh(j, n + 2, p) && Fresh(g, p, q) && Fresh(h, q, hi)
    ensures Fresh(j + [Label(n + 1)] + (g + [out] + [Label(n + 2)] + h), n, hi)
  {
    FreshOne(out, q, q);
    FreshConcat(g, [out], p, q, q);
    FreshConcat(j, g + [out], n + 2, p, q);
    FreshConcat(j + (g + [out]), h, n + 2, q, hi);
    FreshInsert(j + (g + [out]), h, n + 1, n + 2, hi);
    assert j + (g + [out]) + [Label(n + 2)] + h == j + (g + [out] + [Label(n + 2)] + h);
    FreshInsert(j, g + [out] + [Label(n + 2)] + h, n, n + 1, hi);
  }

  lemma {:induction false} GenLabelsFresh(s: Stmt, c: Ctx, n: nat, m: nat)
    ensures Fresh(Gen(s, c, n, m).instrs, n, Gen(s, c, n, m).labels)
    decreases s
  {
    hide Fresh, UniqueLabels, LabelsWithin, Jump;
    match s
    case Null => assert Fresh([], n, n) by { FreshNothing(n); }
    case Simple(x) => FreshOne(Perform(x), n, n);
    case SetBool(x, e) =>
      if e.Const? {
        FreshOne(StoreConst(x, e.v), n, n);
      } else {
        FreshJump(e, 0, n + 1, n + 2);
        FreshLogical(Jump(e, 0, n + 1, n + 2).instrs, x, n, m + 1, Jump(e, 0, n + 1, n + 2).labels);
      }
    case Seq(first, second) =>
      if first.Null? {
        GenLabelsFresh(second, c, n, m);
      } else if second.Null? {
        GenLabelsFresh(first, c, n, m);
      } else {
        var g := Gen(first, c.(after := n + 1), n + 1, m);
        var h := Gen(second, c.(begin := n + 1), g.labels, g.temps);
        GenLabelsFresh(first, c.(after := n + 1), n + 1, m);
        GenLabelsFresh(second, c.(begin := n + 1), g.labels, g.temps);
        FreshConcat(g.instrs, h.instrs, n + 1, g.labels, h.labels);
        FreshInsert(g.instrs, h.instrs, n, n + 1, h.labels);
      }
    case If(e, body) =>
      var j := Jump(e, 0, c.after, n + 1);
      var g := Gen(body, c.(begin := n + 1), j.labels, m);
      FreshJump(e, 0, c.after, n + 1);
      GenLabelsFresh(body, c.(begin := n + 1), j.labels, m);
      FreshConcat(j.instrs, g.instrs, n + 1, j.labels, g.labels);
      FreshInsert(j.instrs, g.instrs, n, n + 1, g.labels);
    case Else(e, yes, no) =>
      var j := Jump(e, 0, n + 2, n + 2);
      var g := Gen(yes, c.(begin := n + 1), j.labels, m);
      var h := Gen(no, c.(begin := n + 2), g.labels, g.temps);
      FreshJump(e, 0, n + 2, n + 2);
      GenLabelsFresh(yes, c.(begin := n + 1), j.labels, m);
      GenLabelsFresh(no, c.(begin := n + 2), g.labels, g.temps);
      FreshElse(j.instrs, g.instrs, Goto(c.after), h.instrs, n, j.labels, g.labels, h.labels);
    case While(e, body) =>
      var j := Jump(e, 0, c.after, n);
      var l := j.labels + 1;
      var g := Gen(body, InWhile(c, l), l, m);
      FreshJump(e, 0, c.after, n);
      GenLabelsFresh(body, InWhile(c, l), l, m);
      FreshOne(Goto(c.begin), g.labels, g.labels);
      FreshConcat(g.instrs, [Goto(c.begin)], l, g.labels, g.labels);
      FreshOne(Label(l), j.labels, l);
      FreshConcat(j.instrs, [Label(l)], n, j.labels, l);
      FreshConcat(j.instrs + [Label(l)], g.instrs + [Goto(c.begin)], n, l, g.labels);
    case DoWhile(body, e) =>
      var g := Gen(body, InDo(c, n + 1), n + 1, m);
      var j := Jump(e, c.begin, 0, g.labels);
      GenLabelsFresh(body, InDo(c, n + 1), n + 1, m);
      FreshJump(e, c.begin, 0, g.labels);
      FreshConcat(g.instrs, j.instrs, n + 1, g.labels, j.labels);
      FreshInsert(g.instrs, j.instrs, n, n + 1, j.labels);
    case Break => FreshOne(Goto(c.outerAfter), n, n);
    case Continue => FreshOne(Goto(c.outerBegin), n, n);
  }

  lemma FreshNothing(n: nat)
    ensures Fresh([], n, n)
  {
  }

  lemma FreshJump(e: BoolExpr, t: nat, f: nat, n: nat)
    ensures Fresh(Jump(e, t, f, n).instrs, n, Jump(e, t, f, n).labels)
  {
    JumpLabelsFresh(e, t, f, n);
  }
}

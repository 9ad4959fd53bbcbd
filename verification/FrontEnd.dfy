/** The front end's code generator at work: it draws labels and prints code as it walks the tree. */
module FrontEnd {
  import opened JumpMachine
  import opened ShortCircuit
  import opened Statements
  import CodeGeneration

  /** `labels` and `temps` count what has been drawn; `code` is what has been printed. */
  class Emitter {
    var labels: nat
    var temps: nat
    var code: seq<Instr>

    constructor ()
      ensures labels == 0 && temps == 0 && code == []
    {
      labels, temps, code := 0, 0, [];
    }

    method NewLabel() returns (l: nat)
      modifies this
      ensures l == old(labels) + 1 == labels && code == old(code) && temps == old(temps)
    {
      labels := labels + 1;
      l := labels;
    }

    method NewTemp() returns (t: nat)
      modifies this
      ensures t == old(temps) + 1 == temps && code == old(code) && labels == old(labels)
    {
      temps := temps + 1;
      t := temps;
    }

    method Emit(i: Instr)
      modifies this
      ensures code == old(code) + [i] && labels == old(labels) && temps == old(temps)
    {
      code := code + [i];
    }

    method EmitTest(x: Name, t: nat, f: nat)
      modifies this
      ensures code == old(code) + EmitJumps(x, t, f) && labels == old(labels) && temps == old(temps)
    {
      if t != 0 && f != 0 {
        Emit(IfGoto(x, t));
        Emit(Goto(f));
      } else if t != 0 {
        Emit(IfGoto(x, t));
      } else if f != 0 {
        Emit(IfNotGoto(x, f));
      }
    }

    method Jumping(e: BoolExpr, t: nat, f: nat)
      modifies this
      ensures var c := Jump(e, t, f, old(labels)); code == old(code) + c.instrs && labels == c.labels
      ensures temps == old(temps)
      decreases e
    {
      match e {
        case Const(v) =>
          if v && t != 0 {
            Emit(Goto(t));
          } else if !v && f != 0 {
            Emit(Goto(f));
          }
        case Test(x) => EmitTest(x, t, f);
        case And(l, r) =>
          var own := f;
          if f == 0 {
            own := NewLabel();
          }
          Jumping(l, 0, own);
          Jumping(r, t, f);
          if f == 0 {
            Emit(Label(own));
          }
        case Or(l, r) =>
          var own := t;
          if t == 0 {
            own := NewLabel();
          }
          Jumping(l, own, 0);
          Jumping(r, t, f);
          if t == 0 {
            Emit(Label(own));
          }
        case Not(x) => Jumping(x, f, t);
      }
    }

    /** The value of `&&`, `||`, `!` or a comparison is computed into a temporary. */
    method GenLogical(e: BoolExpr) returns (temp: nat)
      modifies this
      ensures var n, m := old(labels), old(temps) + 1;
              var j := Jump(e, 0, n + 1, n + 2);
              labels == j.labels && temps == m == temp &&
              code == old(code) + j.instrs +
                      [SetTemp(m, true), Goto(n + 2), Label(n + 1), SetTemp(m, false), Label(n + 2)]
    {
      var f := NewLabel();
      var a := NewLabel();
      temp := NewTemp();
      Jumping(e, 0, f);
      Emit(SetTemp(temp, true));
      Emit(Goto(a));
      Emit(Label(f));
      Emit(SetTemp(temp, false));
      Emit(Label(a));
    }

    method GenSet(x: Name, e: BoolExpr)
      modifies this
      ensures var g := Gen(SetBool(x, e), Ctx(0, 0, 0, 0), old(labels), old(temps));
              code == old(code) + g.instrs && labels == g.labels && temps == g.temps
    {
      if e.Const? {
        Emit(StoreConst(x, e.v));
      } else {
        var t := GenLogical(e);
        Emit(StoreTemp(x, t));
      }
    }

    method GenStmt(s: Stmt, c: Ctx)
      modifies this
      ensures var g := Gen(s, c, old(labels), old(temps));
              code == old(code) + g.instrs && labels == g.labels && temps == g.temps
      decreases s, 1
    {
      match s {
        case Null =>
        case Simple(x) => Emit(Perform(x));
        case SetBool(x, e) => GenSet(x, e);
        case Seq(_, _) => GenSeq(s, c);
        case If(_, _) => GenIf(s, c);
        case Else(_, _, _) => GenElse(s, c);
        case While(_, _) => GenWhile(s, c);
        case DoWhile(_, _) => GenDo(s, c);
        case Break => Emit(Goto(c.outerAfter));
        case Continue => Emit(Goto(c.outerBegin));
      }
    }

    method GenSeq(s: Stmt, c: Ctx)
      requires s.Seq?
      modifies this
      ensures var g := Gen(s, c, old(labels), old(temps));
              code == old(code) + g.instrs && labels == g.labels && temps == g.temps
      decreases s, 0
    {
      hide Jump;
      if s.first.Null? {
        GenStmt(s.second, c);
      } else if s.second.Null? {
        GenStmt(s.first, c);
      } else {
        var l := NewLabel();
        GenStmt(s.first, c.(after := l));
        Emit(Label(l));
        GenStmt(s.second, c.(begin := l));
      }
    }

    /** The condition, the label of the body, and the body, as in both forms of if. */
    method GenGuarded(e: BoolExpr, f: nat, l: nat, s: Stmt, c: Ctx)
      modifies this
      ensures var j := Jump(e, 0, f, old(labels));
              var g := Gen(s, c.(begin := l), j.labels, old(temps));
              code == old(code) + j.instrs + [Label(l)] + g.instrs && labels == g.labels && temps == g.temps
      decreases s, 2
    {
      hide Jump, Gen;
      Jumping(e, 0, f);
      Emit(Label(l));
      GenStmt(s, c.(begin := l));
    }

    method GenIf(s: Stmt, c: Ctx)
      requires s.If?
      modifies this
      ensures var g := Gen(s, c, old(labels), old(temps));
              code == old(code) + g.instrs && labels == g.labels && temps == g.temps
      decreases s, 0
    {
      hide Jump;
      var l := NewLabel();
      GenGuarded(s.e, c.after, l, s.body, c);
    }

    method GenElse(s: Stmt, c: Ctx)
      requires s.Else?
      modifies this
      ensures var g := Gen(s, c, old(labels), old(temps));
              code == old(code) + g.instrs && labels == g.labels && temps == g.temps
      decreases s, 0
    {
      hide Jump;
      var l1 := NewLabel();
      var l2 := NewLabel();
      GenGuarded(s.e, l2, l1, s.yes, c);
      Emit(Goto(c.after));
      Emit(Label(l2));
      GenStmt(s.no, c.(begin := l2));
    }

    method GenWhile(s: Stmt, c: Ctx)
      requires s.While?
      modifies this
      ensures var g := Gen(s, c, old(labels), old(temps));
              code == old(code) + g.instrs && labels == g.labels && temps == g.temps
      decreases s, 0
    {
      hide Jump;
      Jumping(s.e, 0, c.after);
      var l := NewLabel();
      Emit(Label(l));
      GenStmt(s.body, InWhile(c, l));
      Emit(Goto(c.begin));
    }

    method GenDo(s: Stmt, c: Ctx)
      requires s.DoWhile?
      modifies this
      ensures var g := Gen(s, c, old(labels), old(temps));
              code == old(code) + g.instrs && labels == g.labels && temps == g.temps
      decreases s, 0
    {
      hide Jump;
      var l := NewLabel();
      GenStmt(s.body, InDo(c, l));
      Emit(Label(l));
      Jumping(s.e, c.begin, 0);
    }

    method GenProgram(s: Stmt)
      requires labels == 0 && temps == 0 && code == []
      modifies this
      ensures code == CodeGeneration.Program(s)
    {
      hide Gen;
      var begin := NewLabel();
      var after := NewLabel();
      Emit(Label(begin));
      GenStmt(s, Ctx(begin, after, 0, 0));
      Emit(Label(after));
    }
  }
}

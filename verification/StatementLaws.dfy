/** Laws that tie the meanings of statements to each other, for every program, oracle and outcome. */
module StatementLaws {
  import opened JumpMachine
  import opened ShortCircuit
  import opened Statements
  import opened CodeGeneration

  /** Run far enough, the statement is over with this outcome. */
  ghost predicate Ends(s: Stmt, env: Oracle, tr: Trace, retest: bool, o: Out) {
    exists fuel: nat :: Run(s, env, tr, fuel, retest) == Over(o)
  }

  /** Two statements that can be exchanged. */
  ghost predicate Same(a: Stmt, b: Stmt, env: Oracle, retest: bool) {
    forall tr, o :: Ends(a, env, tr, retest, o) <==> Ends(b, env, tr, retest, o)
  }

  // ----- conditionals -----

  /** An else branch runs exactly when the condition is false, and an if without one does nothing then. */
  lemma ElseBranches(e: BoolExpr, a: Stmt, b: Stmt, env: Oracle, tr: Trace, fuel: nat, retest: bool)
    ensures Run(Else(Const(true), a, b), env, tr, fuel, retest) == Run(a, env, tr, fuel, retest)
    ensures Run(Else(Not(e), a, b), env, tr, fuel, retest) == Run(Else(e, b, a), env, tr, fuel, retest)
    ensures Run(If(e, a), env, tr, fuel, retest) == Run(Else(e, a, Null), env, tr, fuel, retest)
  {
    assert Eval(Not(e), env, tr).tr == Eval(e, env, tr).tr;
  }

  /** When every test has a fixed outcome, an assignment stores the truth of its expression, once, after the tests. */
  lemma AssignmentStoresTruth(x: Name, e: BoolExpr, env: Oracle, holds: Name -> bool, tr: Trace, fuel: nat, retest: bool)
    requires forall t: Trace, y: Name :: env(t + [Tested(y)]) == holds(y)
    ensures var t := Eval(e, env, tr).tr;
            Run(SetBool(x, e), env, tr, fuel, retest) == Over(Out(Normal, t + [Stored(x, Truth(e, holds))]))
  {
    EvalIsTruth(e, env, holds, tr);
  }

  // ----- while -----

  /** A statement that is over stays so with more fuel, with the same outcome. */
  lemma EndsWith(s: Stmt, env: Oracle, tr: Trace, fuel: nat, retest: bool, o: Out)
    requires Run(s, env, tr, fuel, retest) == Over(o)
    ensures forall more: nat {:trigger Run(s, env, tr, more, retest)} :: fuel <= more ==> Run(s, env, tr, more, retest) == Over(o)
    ensures Ends(s, env, tr, retest, o)
  {
    forall more: nat | fuel <= more ensures Run(s, env, tr, more, retest) == Over(o) {
      MoreFuel(s, env, tr, fuel, more, retest);
    }
  }

  /** while (e) b  is  if (e) { b; while (e) b }  when neither break nor continue in b belongs to this loop. */
  lemma WhileUnrolls(e: BoolExpr, b: Stmt, env: Oracle, retest: bool)
    requires Enclosed(b, false)
    ensures Same(While(e, b), If(e, Seq(b, While(e, b))), env, retest)
  {
    var w := While(e, b);
    forall tr, o
      ensures Ends(w, env, tr, retest, o) <==> Ends(If(e, Seq(b, w)), env, tr, retest, o)
    {
      if Ends(w, env, tr, retest, o) {
        var fuel: nat :| Run(w, env, tr, fuel, retest) == Over(o);
        UnrolledOnce(e, b, env, tr, fuel, retest);
        EndsWith(If(e, Seq(b, w)), env, tr, fuel, retest, o);
      }
      if Ends(If(e, Seq(b, w)), env, tr, retest, o) {
        var fuel: nat :| Run(If(e, Seq(b, w)), env, tr, fuel, retest) == Over(o);
        RolledUp(e, b, env, tr, fuel, retest);
        EndsWith(w, env, tr, fuel + 1, retest, o);
      }
    }
  }

  lemma UnrolledOnce(e: BoolExpr, b: Stmt, env: Oracle, tr: Trace, fuel: nat, retest: bool)
    requires Enclosed(b, false) && Run(While(e, b), env, tr, fuel, retest).Over?
    ensures Run(If(e, Seq(b, While(e, b))), env, tr, fuel, retest) == Run(While(e, b), env, tr, fuel, retest)
  {
    hide Eval;
    var v := Eval(e, env, tr);
    if v.value {
      EndsNormally(b, env, v.tr, fuel, retest);
      var r := Run(b, env, v.tr, fuel, retest).out;
      MoreFuel(While(e, b), env, r.tr, fuel - 1, fuel, retest);
      assert Run(Seq(b, While(e, b)), env, v.tr, fuel, retest) == Run(While(e, b), env, r.tr, fuel, retest);
    }
  }

  lemma RolledUp(e: BoolExpr, b: Stmt, env: Oracle, tr: Trace, fuel: nat, retest: bool)
    requires Enclosed(b, false) && Run(If(e, Seq(b, While(e, b))), env, tr, fuel, retest).Over?
    ensures Run(While(e, b), env, tr, fuel + 1, retest) == Run(If(e, Seq(b, While(e, b))), env, tr, fuel, retest)
  {
    hide Eval;
    var v := Eval(e, env, tr);
    if v.value {
      assert Run(Seq(b, While(e, b)), env, v.tr, fuel, retest).Over?;
      EndsNormally(b, env, v.tr, fuel, retest);
      MoreFuel(b, env, v.tr, fuel, fuel + 1, retest);
    }
  }

  /** while (e) { b; break }  is  if (e) b  when neither break nor continue in b belongs to this loop. */
  lemma BreakLeaves(e: BoolExpr, b: Stmt, env: Oracle, tr: Trace, fuel: nat, retest: bool)
    requires Enclosed(b, false)
    ensures Run(While(e, Seq(b, Break)), env, tr, fuel, retest) == Run(If(e, b), env, tr, fuel, retest)
  {
    hide Eval;
    var v := Eval(e, env, tr);
    if v.value {
      EndsNormally(b, env, v.tr, fuel, retest);
      var r := Run(b, env, v.tr, fuel, retest);
      if r.Over? {
        assert Run(Seq(b, Break), env, v.tr, fuel, retest) == Over(Out(Broke, r.out.tr));
      }
    }
  }

  /** while (e) { b; continue; c }  is  while (e) b, whatever b is: continue goes back to the condition. */
  lemma {:induction false} ContinueSkips(e: BoolExpr, b: Stmt, c: Stmt, env: Oracle, tr: Trace, fuel: nat, retest: bool)
    ensures Run(While(e, Seq(b, Seq(Continue, c))), env, tr, fuel, retest) == Run(While(e, b), env, tr, fuel, retest)
    decreases fuel
  {
    hide Eval;
    var v := Eval(e, env, tr);
    var r := Run(b, env, v.tr, fuel, retest);
    if v.value && r.Over? {
      if r.out.sig.Normal? {
        assert Run(Seq(Continue, c), env, r.out.tr, fuel, retest) == Over(Out(Continued, r.out.tr));
      }
      if !r.out.sig.Broke? && fuel > 0 {
        ContinueSkips(e, b, c, env, r.out.tr, fuel - 1, retest);
      }
    }
  }

  // ----- do -----

  /** do b while (e)  is  b; while (e) b  when neither break nor continue in b belongs to this loop. */
  lemma DoIsBodyThenWhile(b: Stmt, e: BoolExpr, env: Oracle, retest: bool)
    requires Enclosed(b, false)
    ensures Same(DoWhile(b, e), Seq(b, While(e, b)), env, retest)
  {
    var d, q := DoWhile(b, e), Seq(b, While(e, b));
    forall tr, o
      ensures Ends(d, env, tr, retest, o) <==> Ends(q, env, tr, retest, o)
    {
      if Ends(d, env, tr, retest, o) {
        var fuel: nat :| Run(d, env, tr, fuel, retest) == Over(o);
        DoToWhile(b, e, env, tr, fuel, retest);
        EndsWith(q, env, tr, fuel, retest, o);
      }
      if Ends(q, env, tr, retest, o) {
        var fuel: nat :| Run(q, env, tr, fuel, retest) == Over(o);
        EndsNormally(b, env, tr, fuel, retest);
        MoreFuel(b, env, tr, fuel, fuel + 1, retest);
        WhileToDo(b, e, env, tr, fuel, retest);
        EndsWith(d, env, tr, fuel + 1, retest, o);
      }
    }
  }

  /** do { b; break } while (e)  is  b, without a test. */
  lemma BreakLeavesDo(b: Stmt, e: BoolExpr, env: Oracle, tr: Trace, fuel: nat, retest: bool)
    requires Enclosed(b, false)
    ensures Run(DoWhile(Seq(b, Break), e), env, tr, fuel, retest) == Run(b, env, tr, fuel, retest)
  {
    EndsNormally(b, env, tr, fuel, retest);
    var r := Run(b, env, tr, fuel, retest);
    if r.Over? {
      assert Run(Seq(b, Break), env, tr, fuel, retest) == Over(Out(Broke, r.out.tr));
    }
  }

  lemma {:induction false} DoToWhile(b: Stmt, e: BoolExpr, env: Oracle, tr: Trace, fuel: nat, retest: bool)
    requires Enclosed(b, false) && Run(DoWhile(b, e), env, tr, fuel, retest).Over?
    ensures Run(Seq(b, While(e, b)), env, tr, fuel, retest) == Run(DoWhile(b, e), env, tr, fuel, retest)
    decreases fuel
  {
    hide Eval;
    EndsNormally(b, env, tr, fuel, retest);
    var r := Run(b, env, tr, fuel, retest).out;
    var v := Eval(e, env, r.tr);
    if v.value {
      DoToWhile(b, e, env, v.tr, fuel - 1, retest);
      EndsNormally(b, env, v.tr, fuel - 1, retest);
      MoreFuel(b, env, v.tr, fuel - 1, fuel, retest);
      assert Run(While(e, b), env, r.tr, fuel, retest)
          == Run(While(e, b), env, Run(b, env, v.tr, fuel, retest).out.tr, fuel - 1, retest);
    } else {
      assert Run(While(e, b), env, r.tr, fuel, retest) == Over(Out(Normal, v.tr));
    }
  }

  lemma {:induction false} WhileToDo(b: Stmt, e: BoolExpr, env: Oracle, tr: Trace, n: nat, retest: bool)
    requires Enclosed(b, false) && Run(b, env, tr, n + 1, retest).Over?
    requires Run(While(e, b), env, Run(b, env, tr, n + 1, retest).out.tr, n, retest).Over?
    ensures Run(DoWhile(b, e), env, tr, n + 1, retest) == Run(While(e, b), env, Run(b, env, tr, n + 1, retest).out.tr, n, retest)
    decreases n
  {
    hide Eval;
    EndsNormally(b, env, tr, n + 1, retest);
    var r := Run(b, env, tr, n + 1, retest).out;
    var v := Eval(e, env, r.tr);
    if v.value {
      EndsNormally(b, env, v.tr, n, retest);
      WhileToDo(b, e, env, v.tr, n - 1, retest);
    }
  }
}

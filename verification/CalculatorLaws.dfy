/** What the values of the two calculators mean: printed numbers are read back, and operators group to the left. */
module CalculatorLaws {
  import opened Common
  import opened NumberText
  import opened Arithmetic
  import Calculator
  import TailCalculator

  // ----- numbers -----

  /** The number that a string of digits stands for is the one that positional notation gives it. */
  lemma {:induction false} DecimalIsParse(digits: string)
    requires AllDigits(digits)
    ensures Decimal(digits) == Parse(digits, 10)
    decreases |digits|
  {
    if digits != [] {
      DecimalIsParse(digits[..|digits| - 1]);
    }
  }

  lemma {:induction false} TextIsDigits(n: nat)
    ensures AllDigits(Text(n, 10))
    decreases n
  {
    if n >= 10 {
      TextIsDigits(Quot(n, 10));
    }
  }

  lemma DecimalOfText(n: nat)
    ensures AllDigits(Text(n, 10)) && Decimal(Text(n, 10)) == n
  {
    TextIsDigits(n);
    DecimalIsParse(Text(n, 10));
    TextParses(n, 10);
  }

  function Lone(sign: Sign, digits: string): Expr { Expr(Term(Num(sign, digits), MulEnd), AddEnd) }

  function WithSign(sign: Sign, n: int): int { if sign.Minus? then -n else n }

  lemma LoneNumber(sign: Sign, n: nat)
    ensures var e, v := Lone(sign, Text(n, 10)), WithSign(sign, n);
            && ExprOk(e) && TailCalculator.Flat(e) && SpellExpr(e) == SpellSign(sign) + Text(n, 10)
            && ExprValue(e) == Some(v) && TailCalculator.ExprReal(e) == Some(v as real)
  {
    DecimalOfText(n);
    var e := Lone(sign, Text(n, 10));
    assert Literal(sign, Text(n, 10)) == WithSign(sign, n);
    assert FactorValue(e.first.first) == Some(WithSign(sign, n));
    assert MulTailOk(MulEnd) && FactorOk(e.first.first) && TermOk(e.first);
    assert TermValue(e.first) == Some(WithSign(sign, n));
    assert TailCalculator.TermReal(e.first) == Some(WithSign(sign, n) as real);
    assert SpellFactor(e.first.first) == SpellSign(sign) + Text(n, 10);
    assert SpellTerm(e.first) == SpellFactor(e.first.first) + "";
  }

  /** Both calculators read back every number that itoa prints in decimal, with or without a plus sign in front. */
  lemma ReadsPrintedNumber(n: int)
    ensures Calculator.ParseExpr(SignedText(n, 10) + "\n") == Ok(n, "\n")
    ensures TailCalculator.ReadExpr(SignedText(n, 10) + "\n") == Ok(n as real, "\n")
    ensures n >= 0 ==> Calculator.ParseExpr("+" + SignedText(n, 10) + "\n") == Ok(n, "\n")
    ensures n >= 0 ==> TailCalculator.ReadExpr("+" + SignedText(n, 10) + "\n") == Ok(n as real, "\n")
  {
    hide Text, Calculator.ParseExpr, TailCalculator.ReadExpr, SpellExpr, ExprValue, TailCalculator.ExprReal, ExprOk,
         TailCalculator.Flat;
    if n < 0 {
      ReadsLone(Minus, -n);
    } else {
      ReadsLone(NoSign, n);
      ReadsLone(Plus, n);
      assert "" + Text(n, 10) == Text(n, 10);
    }
  }

  lemma ReadsLone(sign: Sign, n: nat)
    ensures var v := WithSign(sign, n);
            && Calculator.ParseExpr(SpellSign(sign) + Text(n, 10) + "\n") == Ok(v, "\n")
            && TailCalculator.ReadExpr(SpellSign(sign) + Text(n, 10) + "\n") == Ok(v as real, "\n")
  {
    hide Text, Calculator.ParseExpr, TailCalculator.ReadExpr, SpellExpr, ExprValue, TailCalculator.ExprReal, ExprOk,
         TailCalculator.Flat;
    LoneNumber(sign, n);
    Calculator.ReadsExpr(Lone(sign, Text(n, 10)), "\n");
    TailCalculator.ReadsFlatExpr(Lone(sign, Text(n, 10)), "\n");
  }

  // ----- division truncates towards zero -----

  lemma QuotientBounds(m: nat, d: nat)
    requires d > 0
    ensures 0 <= m - Quotient(m, d) * d < d && Quotient(m, d) * d >= 0
  {
    DivModLaw(m, d);
  }

  /** What is left over is smaller than the divisor and has the sign of the dividend. */
  lemma TruncDivLaw(a: int, b: int)
    requires b != 0
    ensures var r := a - TruncDiv(a, b) * b;
            && -(if b < 0 then -b else b) < r < (if b < 0 then -b else b)
            && (a >= 0 ==> r >= 0) && (a <= 0 ==> r <= 0)
  {
    var m, d := if a < 0 then -a else a, if b < 0 then -b else b;
    QuotientBounds(m, d);
    TruncDivParts(a, b);
    RemainderSigns(a, b, Quotient(m, d) * d, TruncDiv(a, b) * b);
  }

  /** The product of quotient and divisor, up to its sign. */
  lemma TruncDivParts(a: int, b: int)
    requires b != 0
    ensures var m, d := if a < 0 then -a else a, if b < 0 then -b else b;
            TruncDiv(a, b) * b == if a < 0 then -(Quotient(m, d) * d) else Quotient(m, d) * d
  {
    var m, d := if a < 0 then -a else a, if b < 0 then -b else b;
    var q := Quotient(m, d);
    assert TruncDiv(a, b) == if (a < 0) == (b < 0) then q else -q;
    SignedProduct(q, b, d);
    hide Quotient, TruncDiv;
  }

  lemma RemainderSigns(a: int, b: int, product: int, signed: int)
    requires b != 0 && product >= 0 && signed == if a < 0 then -product else product
    requires 0 <= (if a < 0 then -a else a) - product < (if b < 0 then -b else b)
    ensures var r, d := a - signed, if b < 0 then -b else b; -d < r < d && (a >= 0 ==> r >= 0) && (a <= 0 ==> r <= 0)
  {
  }

  function Quotient(m: nat, d: nat): int
    requires d > 0
  {
    m / d
  }

  lemma SignedProduct(q: int, b: int, d: int)
    requires d == (if b < 0 then -b else b)
    ensures q * b == (if b < 0 then -(q * d) else q * d) && (-q) * b == (if b < 0 then q * d else -(q * d))
  {
  }

  // ----- operators group to the left -----

  function ThenMul(t: MulTail, divide: bool, f: Factor): MulTail {
    match t case MulEnd => MulMore(divide, f, MulEnd) case MulMore(d, g, tail) => MulMore(d, g, ThenMul(tail, divide, f))
  }

  function ThenAdd(t: AddTail, minus: bool, u: Term): AddTail {
    match t case AddEnd => AddMore(minus, u, AddEnd) case AddMore(m, v, tail) => AddMore(m, v, ThenAdd(tail, minus, u))
  }

  /** The text of a term with one more operator and factor behind it. */
  lemma {:induction false} ThenMulSpelled(t: MulTail, divide: bool, f: Factor)
    ensures SpellMulTail(ThenMul(t, divide, f)) == SpellMulTail(t) + (if divide then "/" else "*") + SpellFactor(f)
    decreases t
  {
    var op := if divide then "/" else "*";
    match t
    case MulEnd => assert SpellMulTail(MulMore(divide, f, MulEnd)) == op + SpellFactor(f) + "";
    case MulMore(d, g, tail) =>
      ThenMulSpelled(tail, divide, f);
      var head := (if d then "/" else "*") + SpellFactor(g);
      assert head + (SpellMulTail(tail) + op + SpellFactor(f)) == head + SpellMulTail(tail) + op + SpellFactor(f);
  }

  lemma {:induction false} ThenAddSpelled(t: AddTail, minus: bool, u: Term)
    ensures SpellAddTail(ThenAdd(t, minus, u)) == SpellAddTail(t) + (if minus then "-" else "+") + SpellTerm(u)
    decreases t
  {
    var op := if minus then "-" else "+";
    match t
    case AddEnd => assert SpellAddTail(AddMore(minus, u, AddEnd)) == op + SpellTerm(u) + "";
    case AddMore(m, v, tail) =>
      ThenAddSpelled(tail, minus, u);
      var head := (if m then "-" else "+") + SpellTerm(v);
      assert head + (SpellAddTail(tail) + op + SpellTerm(u)) == head + SpellAddTail(tail) + op + SpellTerm(u);
  }

  lemma {:induction false} MulThen(v: int, t: MulTail, divide: bool, f: Factor)
    requires MulTailOk(t) && FactorOk(f)
    ensures MulTailOk(ThenMul(t, divide, f))
    ensures var x, w, r := MulFold(v, t), FactorValue(f), MulFold(v, ThenMul(t, divide, f));
            if x.None? || w.None? then r.None?
            else if divide then (if w.value == 0 then r.None? else r == Some(TruncDiv(x.value, w.value)))
            else r == Some(x.value * w.value)
    decreases t
  {
    hide TruncDiv, FactorValue;
    match t
    case MulEnd =>
      assert MulFold(v, MulMore(divide, f, MulEnd)) ==
             if FactorValue(f).None? then None
             else if MulOrDiv(v, divide, FactorValue(f).value).None? then None
             else MulFold(MulOrDiv(v, divide, FactorValue(f).value).value, MulEnd);
    case MulMore(d, g, tail) =>
      if FactorValue(g).Some? && MulOrDiv(v, d, FactorValue(g).value).Some? {
        MulThen(MulOrDiv(v, d, FactorValue(g).value).value, tail, divide, f);
      } else {
        ThenMulOk(tail, divide, f);
      }
  }

  lemma {:induction false} ThenMulOk(t: MulTail, divide: bool, f: Factor)
    requires MulTailOk(t) && FactorOk(f)
    ensures MulTailOk(ThenMul(t, divide, f))
    decreases t
  {
    if t.MulMore? {
      ThenMulOk(t.tail, divide, f);
    }
  }

  lemma {:induction false} ThenAddOk(t: AddTail, minus: bool, u: Term)
    requires AddTailOk(t) && TermOk(u)
    ensures AddTailOk(ThenAdd(t, minus, u))
    decreases t
  {
    if t.AddMore? {
      ThenAddOk(t.tail, minus, u);
    }
  }

  lemma {:induction false} AddThen(v: int, t: AddTail, minus: bool, u: Term)
    requires AddTailOk(t) && TermOk(u)
    ensures AddTailOk(ThenAdd(t, minus, u))
    ensures var x, w, r := AddFold(v, t), TermValue(u), AddFold(v, ThenAdd(t, minus, u));
            if x.None? || w.None? then r.None?
            else r == Some(if minus then x.value - w.value else x.value + w.value)
    decreases t
  {
    hide TermValue;
    ThenAddOk(t, minus, u);
    match t
    case AddEnd =>
      assert AddFold(v, AddMore(minus, u, AddEnd)) ==
             if TermValue(u).None? then None
             else AddFold(if minus then v - TermValue(u).value else v + TermValue(u).value, AddEnd);
    case AddMore(m, y, tail) =>
      if TermValue(y).Some? {
        AddThen(if m then v - TermValue(y).value else v + TermValue(y).value, tail, minus, u);
      }
  }

  /** A term followed by one more factor: everything before the last operator is its left operand. */
  lemma TermGroupsLeft(t: Term, divide: bool, f: Factor)
    requires TermOk(t) && FactorOk(f)
    ensures var longer := Term(t.first, ThenMul(t.tail, divide, f));
            && TermOk(longer) && SpellTerm(longer) == SpellTerm(t) + (if divide then "/" else "*") + SpellFactor(f)
            && var x, w, r := TermValue(t), FactorValue(f), TermValue(longer);
               if x.None? || w.None? || (divide && w.value == 0) then r.None?
               else r == Some(if divide then TruncDiv(x.value, w.value) else x.value * w.value)
  {
    hide TruncDiv, FactorValue, MulFold;
    ThenMulOk(t.tail, divide, f);
    ThenMulSpelled(t.tail, divide, f);
    var op, a, b, c := if divide then "/" else "*", SpellFactor(t.first), SpellMulTail(t.tail), SpellFactor(f);
    assert a + (b + op + c) == a + b + op + c;
    if FactorValue(t.first).Some? {
      MulThen(FactorValue(t.first).value, t.tail, divide, f);
    }
  }

  /** The same for an expression and one more term. */
  lemma ExprGroupsLeft(e: Expr, minus: bool, u: Term)
    requires ExprOk(e) && TermOk(u)
    ensures var longer := Expr(e.first, ThenAdd(e.tail, minus, u));
            && ExprOk(longer) && SpellExpr(longer) == SpellExpr(e) + (if minus then "-" else "+") + SpellTerm(u)
            && var x, w, r := ExprValue(e), TermValue(u), ExprValue(longer);
               if x.None? || w.None? then r.None?
               else r == Some(if minus then x.value - w.value else x.value + w.value)
  {
    hide TermValue, AddFold, SpellTerm;
    ThenAddOk(e.tail, minus, u);
    ThenAddSpelled(e.tail, minus, u);
    var op, a, b, c := if minus then "-" else "+", SpellTerm(e.first), SpellAddTail(e.tail), SpellTerm(u);
    assert a + (b + op + c) == a + b + op + c;
    if TermValue(e.first).Some? {
      AddThen(TermValue(e.first).value, e.tail, minus, u);
    }
  }

  /** Parentheses make one factor of an expression, with its value. */
  lemma ParenthesesKeepValue(e: Expr)
    requires ExprOk(e)
    ensures SpellFactor(Paren(e)) == "(" + SpellExpr(e) + ")" && FactorValue(Paren(e)) == ExprValue(e)
  {
  }
}

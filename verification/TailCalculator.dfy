/** The LL(1) calculator with tail productions, over exact reals, evaluated from left to right. */
module TailCalculator {
  import opened Common
  import opened Arithmetic
  import Calculator

  // ----- left-associative value over the reals -----

  function Times(a: real, b: real): real { a * b }

  function Over(a: real, b: real): real
    requires b != 0.0
  {
    a / b
  }

  function FactorReal(f: Factor): Option<real>
    requires FactorOk(f)
    decreases f
  {
    match f case Num(sign, digits) => Some(Literal(sign, digits) as real) case Paren(e) => ExprReal(e)
  }

  function MulFoldReal(v: real, t: MulTail): Option<real>
    requires MulTailOk(t)
    decreases t
  {
    match t
    case MulEnd => Some(v)
    case MulMore(divide, f, tail) =>
      var w := FactorReal(f);
      if w.None? || (divide && w.value == 0.0) then None
      else MulFoldReal(if divide then Over(v, w.value) else Times(v, w.value), tail)
  }

  function TermReal(t: Term): Option<real>
    requires TermOk(t)
    decreases t
  {
    var v := FactorReal(t.first);
    if v.None? then None else MulFoldReal(v.value, t.tail)
  }

  function AddFoldReal(v: real, t: AddTail): Option<real>
    requires AddTailOk(t)
    decreases t
  {
    match t
    case AddEnd => Some(v)
    case AddMore(minus, term, tail) =>
      var w := TermReal(term);
      if w.None? then None else AddFoldReal(if minus then v - w.value else v + w.value, tail)
  }

  function ExprReal(e: Expr): Option<real>
    requires ExprOk(e)
    decreases e
  {
    var v := TermReal(e.first);
    if v.None? then None else AddFoldReal(v.value, e.tail)
  }

  // ----- the parser; a division by zero has no real value and counts as Fail -----

  const END_TOKEN := '\n'

  function ReadFactor(s: string): (r: Result<real>)
    ensures r.Ok? ==> |r.rest| < |s|
    decreases |s|, 0
  {
    if StartsWith(s, '(') then
      var inner := ReadExpr(s[1..]);
      if inner.Ok? && StartsWith(inner.rest, ')') then Ok(inner.value, inner.rest[1..]) else Fail
    else if StartsNumber(s) then
      var n := ScanNumber(s);
      if n.Ok? then Ok(Literal(n.value.sign, n.value.digits) as real, n.rest) else Fail
    else Fail
  }

  function ReadFactorTail(s: string): (r: Result<real>)
    ensures r.Ok? ==> |r.rest| <= |s|
    decreases |s|, 1
  {
    if StartsWith(s, '*') || StartsWith(s, '/') then
      var f := ReadFactor(s[1..]);
      if f.Fail? || (s[0] == '/' && f.value == 0.0) then Fail
      else
        var t := ReadFactorTail(f.rest);
        if t.Fail? then Fail
        else Ok(if s[0] == '/' then Times(Over(1.0, f.value), t.value) else Times(f.value, t.value), t.rest)
    else if StartsWith(s, '+') || StartsWith(s, '-') || StartsWith(s, END_TOKEN) then Ok(1.0, s)
    else Fail
  }

  function ReadTerm(s: string): (r: Result<real>)
    ensures r.Ok? ==> |r.rest| < |s|
    decreases |s|, 2
  {
    var f := ReadFactor(s);
    if f.Fail? then Fail
    else
      var t := ReadFactorTail(f.rest);
      if t.Fail? then Fail else Ok(Times(f.value, t.value), t.rest)
  }

  function ReadTermTail(s: string): (r: Result<real>)
    ensures r.Ok? ==> |r.rest| <= |s|
    decreases |s|, 3
  {
    if StartsWith(s, '+') || StartsWith(s, '-') then
      var t := ReadTerm(s[1..]);
      if t.Fail? then Fail
      else
        var u := ReadTermTail(t.rest);
        if u.Fail? then Fail else Ok((if s[0] == '-' then -t.value else t.value) + u.value, u.rest)
    else if StartsWith(s, END_TOKEN) then Ok(0.0, s)
    else Fail
  }

  function ReadExpr(s: string): (r: Result<real>)
    ensures r.Ok? ==> |r.rest| < |s|
    decreases |s|, 4
  {
    var t := ReadTerm(s);
    if t.Fail? then Fail
    else
      var u := ReadTermTail(t.rest);
      if u.Fail? then Fail else Ok(t.value + u.value, u.rest)
  }

  // ----- sentences without parentheses -----

  predicate FlatMulTail(t: MulTail) {
    match t case MulEnd => true case MulMore(_, f, tail) => f.Num? && FlatMulTail(tail)
  }

  predicate FlatTerm(t: Term) { t.first.Num? && FlatMulTail(t.tail) }

  predicate FlatAddTail(t: AddTail) {
    match t case AddEnd => true case AddMore(_, term, tail) => FlatTerm(term) && FlatAddTail(tail)
  }

  predicate Flat(e: Expr) { FlatTerm(e.first) && FlatAddTail(e.tail) }

  // ----- the tails multiply and add what the loops accumulate -----

  lemma TimesAssociates(a: real, b: real, c: real)
    ensures Times(Times(a, b), c) == Times(a, Times(b, c))
  {
  }

  lemma OverIsTimes(a: real, b: real)
    requires b != 0.0
    ensures Over(a, b) == Times(a, Over(1.0, b))
  {
  }

  lemma TimesOne(a: real)
    ensures Times(a, 1.0) == a
  {
  }

  /** What the tail production computes: the product of the factors, each inverted after a '/'. */
  function TailProduct(t: MulTail): Option<real>
    requires MulTailOk(t)
  {
    match t
    case MulEnd => Some(1.0)
    case MulMore(divide, f, tail) =>
      var w := FactorReal(f);
      if w.None? || (divide && w.value == 0.0) then None
      else
        var p := TailProduct(tail);
        if p.None? then None else Some(Times(if divide then Over(1.0, w.value) else w.value, p.value))
  }

  lemma {:induction false} FoldIsProduct(v: real, t: MulTail)
    requires MulTailOk(t)
    ensures MulFoldReal(v, t) == (if TailProduct(t).None? then None else Some(Times(v, TailProduct(t).value)))
    decreases t
  {
    hide Times, Over;
    match t
    case MulEnd => TimesOne(v);
    case MulMore(divide, f, tail) =>
      var w := FactorReal(f);
      if w.Some? && !(divide && w.value == 0.0) {
        FoldIsProduct(if divide then Over(v, w.value) else Times(v, w.value), tail);
        var p := TailProduct(tail);
        if p.Some? {
          if divide {
            OverIsTimes(v, w.value);
            TimesAssociates(v, Over(1.0, w.value), p.value);
          } else {
            TimesAssociates(v, w.value, p.value);
          }
        }
      }
  }

  lemma {:induction false} FoldIsSum(v: real, t: AddTail)
    requires AddTailOk(t)
    ensures AddFoldReal(v, t).None? <==> AddFoldReal(0.0, t).None?
    ensures AddFoldReal(v, t).Some? ==> AddFoldReal(v, t).value == v + AddFoldReal(0.0, t).value
    decreases t
  {
    match t
    case AddEnd =>
    case AddMore(minus, term, tail) =>
      var w := TermReal(term);
      if w.Some? {
        FoldIsSum(if minus then v - w.value else v + w.value, tail);
        FoldIsSum(if minus then 0.0 - w.value else 0.0 + w.value, tail);
      }
  }

  // ----- every flat, newline-terminated sentence is read with its left-associative value -----

  predicate EndsLine(tail: string) { StartsWith(tail, END_TOKEN) }

  lemma ReadsNumber(f: Factor, tail: string)
    requires f.Num? && FactorOk(f) && EndsFactor(tail)
    ensures FactorReal(f).Some? && ReadFactor(SpellFactor(f) + tail) == Expected(FactorReal(f), tail)
  {
    SpelledFactorStarts(f);
    ScanSpelled(f, tail);
  }

  predicate EndsFactorTail(tail: string) {
    StartsWith(tail, '+') || StartsWith(tail, '-') || StartsWith(tail, END_TOKEN)
  }

  lemma {:induction false} ReadsFactorTail(t: MulTail, tail: string)
    requires MulTailOk(t) && FlatMulTail(t) && EndsFactorTail(tail)
    ensures ReadFactorTail(SpellMulTail(t) + tail) == Expected(TailProduct(t), tail)
    decreases t
  {
    hide Times, Over, ReadFactor, SpellFactor, FactorReal;
    MulTailStarts(t, tail);
    match t
    case MulEnd =>
    case MulMore(divide, f, rest) =>
      var s := SpellMulTail(t) + tail;
      var follow := SpellMulTail(rest) + tail;
      assert s[1..] == SpellFactor(f) + follow;
      MulTailStarts(rest, tail);
      ReadsNumber(f, follow);
      var w := FactorReal(f).value;
      if !(divide && w == 0.0) {
        ReadsFactorTail(rest, tail);
      }
  }

  lemma ReadsFlatTerm(t: Term, tail: string)
    requires TermOk(t) && FlatTerm(t) && EndsFactorTail(tail)
    ensures ReadTerm(SpellTerm(t) + tail) == Expected(TermReal(t), tail)
  {
    var follow := SpellMulTail(t.tail) + tail;
    ConcatAssoc(SpellFactor(t.first), SpellMulTail(t.tail), tail);
    MulTailStarts(t.tail, tail);
    ReadsNumber(t.first, follow);
    ReadsFactorTail(t.tail, tail);
    FoldIsProduct(FactorReal(t.first).value, t.tail);
  }

  lemma AddTailEndsFactor(t: AddTail, tail: string)
    requires EndsLine(tail)
    ensures EndsFactorTail(SpellAddTail(t) + tail)
    ensures t.AddEnd? ==> SpellAddTail(t) + tail == tail
  {
  }

  lemma {:induction false} ReadsTermTail(t: AddTail, tail: string)
    requires AddTailOk(t) && FlatAddTail(t) && EndsLine(tail)
    ensures ReadTermTail(SpellAddTail(t) + tail) == Expected(AddFoldReal(0.0, t), tail)
    decreases t
  {
    hide ReadTerm, SpellTerm, TermReal, FlatTerm, TermOk;
    AddTailEndsFactor(t, tail);
    match t
    case AddEnd =>
    case AddMore(minus, term, rest) =>
      var s := SpellAddTail(t) + tail;
      var follow := SpellAddTail(rest) + tail;
      assert s[1..] == SpellTerm(term) + follow;
      AddTailEndsFactor(rest, tail);
      ReadsFlatTerm(term, follow);
      if TermReal(term).Some? {
        var w := TermReal(term).value;
        ReadsTermTail(rest, tail);
        FoldIsSum(if minus then 0.0 - w else 0.0 + w, rest);
      }
  }

  /** On a sentence without parentheses, up to its newline, the tails give the left-associative value. */
  lemma ReadsFlatExpr(e: Expr, tail: string)
    requires ExprOk(e) && Flat(e) && EndsLine(tail)
    ensures ReadExpr(SpellExpr(e) + tail) == Expected(ExprReal(e), tail)
  {
    hide ReadTerm, ReadTermTail, SpellTerm, TermReal, FlatTerm, TermOk;
    var follow := SpellAddTail(e.tail) + tail;
    ConcatAssoc(SpellTerm(e.first), SpellAddTail(e.tail), tail);
    AddTailEndsFactor(e.tail, tail);
    ReadsFlatTerm(e.first, follow);
    if TermReal(e.first).Some? {
      ReadsTermTail(e.tail, tail);
      FoldIsSum(TermReal(e.first).value, e.tail);
    }
  }

  // ----- and nothing else is accepted: in particular no parenthesis -----

  lemma {:induction false} TermTailEndsLine(s: string)
    ensures ReadTermTail(s).Ok? ==> EndsLine(ReadTermTail(s).rest)
    decreases |s|
  {
    hide ReadTerm;
    if (StartsWith(s, '+') || StartsWith(s, '-')) && ReadTerm(s[1..]).Ok? {
      TermTailEndsLine(ReadTerm(s[1..]).rest);
    }
  }

  /** An expression always ends before a newline, so the closing parenthesis never matches. */
  lemma NoParentheses(s: string)
    requires StartsWith(s, '(')
    ensures ReadFactor(s).Fail?
  {
    hide ReadTerm, ReadTermTail;
    if ReadTerm(s[1..]).Ok? {
      TermTailEndsLine(ReadTerm(s[1..]).rest);
    }
  }

  lemma NumberIsSentence(s: string) returns (f: Factor)
    requires ReadFactor(s).Ok?
    ensures f.Num? && FactorOk(f) && s == SpellFactor(f) + ReadFactor(s).rest && FactorReal(f) == Some(ReadFactor(s).value)
  {
    if StartsWith(s, '(') {
      NoParentheses(s);
    }
    ScannedSpells(s);
    f := ScanNumber(s).value;
  }

  lemma {:induction false} FactorTailIsTail(s: string) returns (t: MulTail)
    requires ReadFactorTail(s).Ok?
    ensures MulTailOk(t) && FlatMulTail(t) && s == SpellMulTail(t) + ReadFactorTail(s).rest
    ensures TailProduct(t) == Some(ReadFactorTail(s).value)
    decreases |s|
  {
    hide SpellFactor, ReadFactor, Times, Over;
    if StartsWith(s, '*') || StartsWith(s, '/') {
      var f := NumberIsSentence(s[1..]);
      var p := ReadFactor(s[1..]);
      var rest := FactorTailIsTail(p.rest);
      t := MulMore(s[0] == '/', f, rest);
      assert s == [s[0]] + s[1..];
      ConcatAssoc(SpellFactor(f), SpellMulTail(rest), ReadFactorTail(s).rest);
      ConcatAssoc([s[0]], SpellFactor(f) + SpellMulTail(rest), ReadFactorTail(s).rest);
      ConcatAssoc([s[0]], SpellFactor(f), SpellMulTail(rest));
    } else {
      t := MulEnd;
    }
  }

  lemma TermIsFlat(s: string) returns (t: Term)
    requires ReadTerm(s).Ok?
    ensures TermOk(t) && FlatTerm(t) && s == SpellTerm(t) + ReadTerm(s).rest && TermReal(t) == Some(ReadTerm(s).value)
  {
    var f := NumberIsSentence(s);
    var tail := FactorTailIsTail(ReadFactor(s).rest);
    t := Term(f, tail);
    FoldIsProduct(ReadFactor(s).value, tail);
    ConcatAssoc(SpellFactor(f), SpellMulTail(tail), ReadTerm(s).rest);
  }

  lemma {:induction false} TermTailIsTail(s: string) returns (t: AddTail)
    requires ReadTermTail(s).Ok?
    ensures AddTailOk(t) && FlatAddTail(t) && s == SpellAddTail(t) + ReadTermTail(s).rest
    ensures AddFoldReal(0.0, t) == Some(ReadTermTail(s).value)
    decreases |s|
  {
    hide SpellTerm, ReadTerm, TermReal, FlatTerm, TermOk;
    if StartsWith(s, '+') || StartsWith(s, '-') {
      var term := TermIsFlat(s[1..]);
      var p := ReadTerm(s[1..]);
      var rest := TermTailIsTail(p.rest);
      t := AddMore(s[0] == '-', term, rest);
      FoldIsSum(if s[0] == '-' then 0.0 - p.value else 0.0 + p.value, rest);
      assert s == [s[0]] + s[1..];
      ConcatAssoc(SpellTerm(term), SpellAddTail(rest), ReadTermTail(s).rest);
      ConcatAssoc([s[0]], SpellTerm(term) + SpellAddTail(rest), ReadTermTail(s).rest);
      ConcatAssoc([s[0]], SpellTerm(term), SpellAddTail(rest));
    } else {
      t := AddEnd;
    }
  }

  /** Whatever this calculator accepts is a parenthesis-free sentence up to a newline, with its value. */
  lemma AcceptsOnlyFlat(s: string) returns (e: Expr)
    requires ReadExpr(s).Ok?
    ensures ExprOk(e) && Flat(e) && s == SpellExpr(e) + ReadExpr(s).rest && EndsLine(ReadExpr(s).rest)
    ensures ExprReal(e) == Some(ReadExpr(s).value)
  {
    hide ReadTerm, ReadTermTail, SpellTerm, TermReal, FlatTerm, TermOk;
    var t := TermIsFlat(s);
    var p := ReadTerm(s);
    var tail := TermTailIsTail(p.rest);
    e := Expr(t, tail);
    FoldIsSum(p.value, tail);
    TermTailEndsLine(p.rest);
    ConcatAssoc(SpellTerm(t), SpellAddTail(tail), ReadExpr(s).rest);
  }

  // ----- the two calculators agree where no integer division truncates -----

  predicate FactorExact(f: Factor)
    requires FactorOk(f)
    decreases f
  {
    f.Paren? ==> ExprExact(f.e)
  }

  /** Every divisor is nonzero and divides what the loop has accumulated in front of it. */
  predicate MulExact(v: int, t: MulTail)
    requires MulTailOk(t)
    decreases t
  {
    match t
    case MulEnd => true
    case MulMore(divide, f, tail) =>
      FactorExact(f) && FactorValue(f).Some? &&
      var w := FactorValue(f).value;
      (divide ==> w != 0 && v % w == 0) && MulExact(MulOrDiv(v, divide, w).value, tail)
  }

  predicate TermExact(t: Term)
    requires TermOk(t)
    decreases t
  {
    FactorExact(t.first) && FactorValue(t.first).Some? && MulExact(FactorValue(t.first).value, t.tail)
  }

  predicate AddExact(t: AddTail)
    requires AddTailOk(t)
    decreases t
  {
    match t case AddEnd => true case AddMore(_, term, tail) => TermExact(term) && AddExact(tail)
  }

  predicate ExprExact(e: Expr)
    requires ExprOk(e)
    decreases e
  {
    TermExact(e.first) && AddExact(e.tail)
  }

  function AsReal(v: Option<int>): Option<real> {
    if v.None? then None else Some(v.value as real)
  }

  lemma ExactQuotient(a: int, b: int)
    requires b != 0 && a % b == 0
    ensures TruncDiv(a, b) * b == a
  {
    var m, d := if a < 0 then -a else a, if b < 0 then -b else b;
    var k := a / b;
    assert a == k * b;
    var q := if k < 0 then -k else k;
    assert m == q * d;
    assert m / d == q by { QuotientUnique(m, d, q, 0); }
    assert k < 0 ==> a != 0;
  }

  lemma ExactOver(a: int, b: int)
    requires b != 0 && a % b == 0
    ensures Over(a as real, b as real) == TruncDiv(a, b) as real
  {
    ExactQuotient(a, b);
    var q := TruncDiv(a, b);
    assert (q as real) * (b as real) == (q * b) as real;
    OverUnique(q as real, b as real);
  }

  lemma OverUnique(q: real, b: real)
    requires b != 0.0
    ensures Over(q * b, b) == q
  {
  }

  lemma ExactFactor(f: Factor)
    requires FactorOk(f) && FactorExact(f)
    ensures FactorReal(f) == AsReal(FactorValue(f))
    decreases f
  {
    if f.Paren? {
      ExactExpr(f.e);
    }
  }

  lemma {:induction false} ExactMul(v: int, t: MulTail)
    requires MulTailOk(t) && MulExact(v, t)
    ensures MulFold(v, t).Some? && MulFoldReal(v as real, t) == AsReal(MulFold(v, t))
    decreases t
  {
    hide Over, TruncDiv;
    if t.MulMore? {
      ExactFactor(t.f);
      var w := FactorValue(t.f).value;
      if t.divide {
        ExactOver(v, w);
      } else {
        assert Times(v as real, w as real) == (v * w) as real;
      }
      ExactMul(MulOrDiv(v, t.divide, w).value, t.tail);
    }
  }

  lemma ExactTerm(t: Term)
    requires TermOk(t) && TermExact(t)
    ensures TermValue(t).Some? && TermReal(t) == AsReal(TermValue(t))
    decreases t
  {
    ExactFactor(t.first);
    ExactMul(FactorValue(t.first).value, t.tail);
  }

  lemma {:induction false} ExactAdd(v: int, t: AddTail)
    requires AddTailOk(t) && AddExact(t)
    ensures AddFold(v, t).Some? && AddFoldReal(v as real, t) == AsReal(AddFold(v, t))
    decreases t
  {
    if t.AddMore? {
      ExactTerm(t.t);
      var w := TermValue(t.t).value;
      ExactAdd(if t.minus then v - w else v + w, t.tail);
    }
  }

  lemma {:induction false} ExactExpr(e: Expr)
    requires ExprOk(e) && ExprExact(e)
    ensures ExprValue(e).Some? && ExprReal(e) == AsReal(ExprValue(e))
    decreases e
  {
    ExactTerm(e.first);
    ExactAdd(TermValue(e.first).value, e.tail);
  }

  /** Both programs print the same number for a flat sentence whose integer divisions are exact. */
  lemma CalculatorsAgree(e: Expr, tail: string)
    requires ExprOk(e) && Flat(e) && ExprExact(e) && EndsLine(tail)
    ensures var v := ExprValue(e);
            v.Some? && Calculator.ParseExpr(SpellExpr(e) + tail) == Ok(v.value, tail) &&
            ReadExpr(SpellExpr(e) + tail) == Ok(v.value as real, tail)
  {
    hide ReadExpr, Calculator.ParseExpr, SpellExpr, ExprValue, ExprReal;
    ExactExpr(e);
    Calculator.ReadsExpr(e, tail);
    ReadsFlatExpr(e, tail);
  }

  // ----- the program -----

  /** `input` is the current token followed by what getchar has still to deliver; None is exit(1) or no real value. */
  class TailCalculator {
    var input: string

    constructor (text: string)
      ensures input == text
    {
      input := text;
    }

    method Match(expected: char) returns (ok: bool)
      modifies this
      ensures ok == StartsWith(old(input), expected)
      ensures input == if ok then old(input)[1..] else old(input)
    {
      ok := input != [] && input[0] == expected;
      if ok {
        input := input[1..];
      }
    }

    method Factor() returns (value: Option<real>)
      modifies this
      ensures value.None? <==> ReadFactor(old(input)).Fail?
      ensures value.Some? ==> ReadFactor(old(input)) == Ok(value.value, input)
      decreases |input|, 0
    {
      if StartsWith(input, '(') {
        var _ := Match('(');
        value := Expression();
        if value.None? {
          return None;
        }
        var closed := Match(')');
        if !closed {
          return None;
        }
      } else if StartsNumber(input) {
        var n := ScanNumber(input);
        if n.Fail? {
          return None;
        }
        value, input := Some(Literal(n.value.sign, n.value.digits) as real), n.rest;
      } else {
        return None;
      }
    }

    method FactorTail() returns (value: Option<real>)
      modifies this
      ensures value.None? <==> ReadFactorTail(old(input)).Fail?
      ensures value.Some? ==> ReadFactorTail(old(input)) == Ok(value.value, input)
      decreases |input|, 1
    {
      hide Times, ReadFactor;
      if StartsWith(input, '*') || StartsWith(input, '/') {
        var divide := input[0] == '/';
        var _ := Match(input[0]);
        var f := Factor();
        if f.None? {
          return None;
        }
        if divide && f.value == 0.0 {
          return None;
        }
        var t := FactorTail();
        if t.None? {
          return None;
        }
        value := Some(Times(if divide then Over(1.0, f.value) else f.value, t.value));
      } else if StartsWith(input, '+') || StartsWith(input, '-') || StartsWith(input, END_TOKEN) {
        value := Some(1.0);
      } else {
        value := None;
      }
    }

    method Term() returns (value: Option<real>)
      modifies this
      ensures value.None? <==> ReadTerm(old(input)).Fail?
      ensures value.Some? ==> ReadTerm(old(input)) == Ok(value.value, input)
      decreases |input|, 2
    {
      hide Times, ReadFactor, ReadFactorTail;
      var f := Factor();
      if f.None? {
        return None;
      }
      var t := FactorTail();
      if t.None? {
        return None;
      }
      value := Some(Times(f.value, t.value));
    }

    method TermTail() returns (value: Option<real>)
      modifies this
      ensures value.None? <==> ReadTermTail(old(input)).Fail?
      ensures value.Some? ==> ReadTermTail(old(input)) == Ok(value.value, input)
      decreases |input|, 3
    {
      hide ReadTerm;
      if StartsWith(input, '+') || StartsWith(input, '-') {
        var minus := input[0] == '-';
        var _ := Match(input[0]);
        var t := Term();
        if t.None? {
          return None;
        }
        var u := TermTail();
        if u.None? {
          return None;
        }
        value := Some((if minus then -t.value else t.value) + u.value);
      } else if StartsWith(input, END_TOKEN) {
        value := Some(0.0);
      } else {
        value := None;
      }
    }

    method Expression() returns (value: Option<real>)
      modifies this
      ensures value.None? <==> ReadExpr(old(input)).Fail?
      ensures value.Some? ==> ReadExpr(old(input)) == Ok(value.value, input)
      decreases |input|, 4
    {
      hide ReadTerm, ReadTermTail;
      var t := Term();
      if t.None? {
        return None;
      }
      var u := TermTail();
      if u.None? {
        return None;
      }
      value := Some(t.value + u.value);
    }
  }
}

/** The grammar shared by the two calculators: abstract syntax, spelling, and left-associative value. */
module Arithmetic {
  import opened Common

  datatype Sign = NoSign | Plus | Minus

  datatype Factor = Num(sign: Sign, digits: string) | Paren(e: Expr)
  datatype MulTail = MulEnd | MulMore(divide: bool, f: Factor, tail: MulTail)
  datatype Term = Term(first: Factor, tail: MulTail)
  datatype AddTail = AddEnd | AddMore(minus: bool, t: Term, tail: AddTail)
  datatype Expr = Expr(first: Term, tail: AddTail)

  predicate AllDigits(s: string) { forall i :: 0 <= i < |s| ==> IsDigit(s[i]) }

  // ----- spelling -----

  function SpellSign(s: Sign): string {
    match s case NoSign => "" case Plus => "+" case Minus => "-"
  }

  function SpellFactor(f: Factor): string {
    match f
    case Num(sign, digits) => SpellSign(sign) + digits
    case Paren(e) => "(" + SpellExpr(e) + ")"
  }

  function SpellMulTail(t: MulTail): string {
    match t
    case MulEnd => ""
    case MulMore(divide, f, tail) => (if divide then "/" else "*") + SpellFactor(f) + SpellMulTail(tail)
  }

  function SpellTerm(t: Term): string { SpellFactor(t.first) + SpellMulTail(t.tail) }

  function SpellAddTail(t: AddTail): string {
    match t
    case AddEnd => ""
    case AddMore(minus, term, tail) => (if minus then "-" else "+") + SpellTerm(term) + SpellAddTail(tail)
  }

  function SpellExpr(e: Expr): string { SpellTerm(e.first) + SpellAddTail(e.tail) }

  // ----- well-formed sentences -----

  predicate FactorOk(f: Factor) {
    match f case Num(_, digits) => digits != [] && AllDigits(digits) case Paren(e) => ExprOk(e)
  }

  predicate MulTailOk(t: MulTail) {
    match t case MulEnd => true case MulMore(_, f, tail) => FactorOk(f) && MulTailOk(tail)
  }

  predicate TermOk(t: Term) { FactorOk(t.first) && MulTailOk(t.tail) }

  predicate AddTailOk(t: AddTail) {
    match t case AddEnd => true case AddMore(_, term, tail) => TermOk(term) && AddTailOk(tail)
  }

  predicate ExprOk(e: Expr) { TermOk(e.first) && AddTailOk(e.tail) }

  // ----- value over the integers; None is a division by zero -----

  function Decimal(digits: string): nat
    requires AllDigits(digits)
  {
    if digits == [] then 0
    else Decimal(digits[..|digits| - 1]) * 10 + (digits[|digits| - 1] - '0') as int
  }

  function Literal(sign: Sign, digits: string): int
    requires AllDigits(digits)
  {
    var d: int := Decimal(digits);
    if sign.Minus? then -d else d
  }

  /** C division truncates towards zero. */
  function TruncDiv(a: int, b: int): int
    requires b != 0
  {
    var q := (if a < 0 then -a else a) / (if b < 0 then -b else b);
    if (a < 0) == (b < 0) then q else -q
  }

  function MulOrDiv(v: int, divide: bool, w: int): Option<int> {
    if !divide then Some(v * w) else if w == 0 then None else Some(TruncDiv(v, w))
  }

  function FactorValue(f: Factor): Option<int>
    requires FactorOk(f)
    decreases f
  {
    match f case Num(sign, digits) => Some(Literal(sign, digits)) case Paren(e) => ExprValue(e)
  }

  function MulFold(v: int, t: MulTail): Option<int>
    requires MulTailOk(t)
    decreases t
  {
    match t
    case MulEnd => Some(v)
    case MulMore(divide, f, tail) =>
      var w := FactorValue(f);
      if w.None? then None
      else
        var x := MulOrDiv(v, divide, w.value);
        if x.None? then None else MulFold(x.value, tail)
  }

  function TermValue(t: Term): Option<int>
    requires TermOk(t)
    decreases t
  {
    var v := FactorValue(t.first);
    if v.None? then None else MulFold(v.value, t.tail)
  }

  function AddFold(v: int, t: AddTail): Option<int>
    requires AddTailOk(t)
    decreases t
  {
    match t
    case AddEnd => Some(v)
    case AddMore(minus, term, tail) =>
      var w := TermValue(term);
      if w.None? then None else AddFold(if minus then v - w.value else v + w.value, tail)
  }

  function ExprValue(e: Expr): Option<int>
    requires ExprOk(e)
    decreases e
  {
    var v := TermValue(e.first);
    if v.None? then None else AddFold(v.value, e.tail)
  }

  // ----- reading a number, as scanf does after ungetc -----

  predicate StartsWith(s: string, c: char) { s != [] && s[0] == c }

  /** How many digits a string begins with. */
  function DigitRun(s: string): (k: nat)
    ensures k <= |s| && AllDigits(s[..k]) && !StartsDigit(s[k..])
  {
    if !StartsDigit(s) then 0
    else
      var k := DigitRun(s[1..]);
      assert s[..k + 1] == [s[0]] + s[1..][..k];
      assert s[k + 1..] == s[1..][k..];
      k + 1
  }

  lemma {:induction false} DigitRunOf(digits: string, tail: string)
    requires AllDigits(digits) && !StartsDigit(tail)
    ensures DigitRun(digits + tail) == |digits|
  {
    if digits == [] {
      assert digits + tail == tail;
    } else {
      DigitRunOf(digits[1..], tail);
      assert (digits + tail)[1..] == digits[1..] + tail;
    }
  }

  function SignOf(s: string): Sign {
    if StartsWith(s, '+') then Plus else if StartsWith(s, '-') then Minus else NoSign
  }

  function SignLength(s: Sign): nat { if s.NoSign? then 0 else 1 }

  datatype Result<T> = Ok(value: T, rest: string) | Fail

  /** What reading a phrase of the given value should yield, when `tail` follows it. */
  function Expected<T>(v: Option<T>, tail: string): Result<T> {
    if v.None? then Fail else Ok(v.value, tail)
  }

  /** The lexeme of a number: Fail if scanf would find no digits. */
  function ScanNumber(s: string): (r: Result<Factor>)
    ensures r.Ok? ==> r.value.Num? && FactorOk(r.value) && |r.rest| < |s| && EndsFactor(r.rest)
  {
    var sign := SignOf(s);
    var body := s[SignLength(sign)..];
    var k := DigitRun(body);
    if k == 0 then Fail else Ok(Num(sign, body[..k]), body[k..])
  }

  lemma ScannedSpells(s: string)
    ensures ScanNumber(s).Ok? ==> s == SpellFactor(ScanNumber(s).value) + ScanNumber(s).rest
  {
    hide DigitRun;
    var sign := SignOf(s);
    var body := s[SignLength(sign)..];
    var k := DigitRun(body);
    assert s == SpellSign(sign) + body;
    Regroup(SpellSign(sign), body, k);
  }

  lemma Regroup(a: string, b: string, k: nat)
    requires k <= |b|
    ensures a + b == (a + b[..k]) + b[k..]
  {
  }

  lemma ScanSpelled(f: Factor, tail: string)
    requires f.Num? && FactorOk(f) && EndsFactor(tail)
    ensures ScanNumber(SpellFactor(f) + tail) == Ok(f, tail)
  {
    hide DigitRun;
    var s := SpellFactor(f) + tail;
    DigitRunOf(f.digits, tail);
    assert SignOf(s) == f.sign by {
      assert f.sign.NoSign? ==> s[0] == f.digits[0];
    }
    BodyOf(f.sign, f.digits, tail);
    assert (f.digits + tail)[..|f.digits|] == f.digits && (f.digits + tail)[|f.digits|..] == tail;
  }

  lemma BodyOf(sign: Sign, digits: string, tail: string)
    ensures (SpellSign(sign) + digits + tail)[SignLength(sign)..] == digits + tail
  {
    assert SpellSign(sign) + digits + tail == SpellSign(sign) + (digits + tail);
  }

  predicate StartsNumber(s: string) {
    StartsDigit(s) || StartsWith(s, '+') || StartsWith(s, '-')
  }

  lemma SpelledFactorStarts(f: Factor)
    requires FactorOk(f)
    ensures f.Num? ==> StartsNumber(SpellFactor(f)) && !StartsWith(SpellFactor(f), '(')
    ensures f.Paren? ==> StartsWith(SpellFactor(f), '(')
  {
  }

  // ----- what may follow a factor, a term or an expression -----

  predicate EndsFactor(tail: string) { !StartsDigit(tail) }

  predicate EndsTerm(tail: string) { EndsFactor(tail) && !StartsWith(tail, '*') && !StartsWith(tail, '/') }

  predicate EndsExpr(tail: string) { EndsTerm(tail) && !StartsWith(tail, '+') && !StartsWith(tail, '-') }

  lemma MulTailStarts(t: MulTail, tail: string)
    requires EndsTerm(tail)
    ensures EndsFactor(SpellMulTail(t) + tail)
    ensures t.MulEnd? ==> SpellMulTail(t) + tail == tail
  {
  }

  lemma AddTailStarts(t: AddTail, tail: string)
    requires EndsExpr(tail)
    ensures EndsTerm(SpellAddTail(t) + tail)
    ensures t.AddEnd? ==> SpellAddTail(t) + tail == tail
  {
  }
}

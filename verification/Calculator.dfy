/** The looping calculator: recursive descent with accumulating loops over truncating integers. */
module Calculator {
  import opened Common
  import opened Arithmetic

  // ----- the parser as functions of the token and the unread input (together one string) -----

  function ParseFactor(s: string): (r: Result<int>)
    ensures r.Ok? ==> |r.rest| < |s|
    decreases |s|, 0
  {
    if StartsWith(s, '(') then
      var inner := ParseExpr(s[1..]);
      if inner.Ok? && StartsWith(inner.rest, ')') then Ok(inner.value, inner.rest[1..]) else Fail
    else if StartsNumber(s) then
      var n := ScanNumber(s);
      if n.Ok? then Ok(Literal(n.value.sign, n.value.digits), n.rest) else Fail
    else Fail
  }

  function MulLoop(v: int, s: string): (r: Result<int>)
    ensures r.Ok? ==> |r.rest| <= |s|
    decreases |s|, 1
  {
    if StartsWith(s, '*') || StartsWith(s, '/') then
      var f := ParseFactor(s[1..]);
      if f.Fail? then Fail
      else
        var x := MulOrDiv(v, s[0] == '/', f.value);
        if x.None? then Fail else MulLoop(x.value, f.rest)
    else Ok(v, s)
  }

  function ParseTerm(s: string): (r: Result<int>)
    ensures r.Ok? ==> |r.rest| < |s|
    decreases |s|, 2
  {
    var f := ParseFactor(s);
    if f.Fail? then Fail else MulLoop(f.value, f.rest)
  }

  function AddLoop(v: int, s: string): (r: Result<int>)
    ensures r.Ok? ==> |r.rest| <= |s|
    decreases |s|, 3
  {
    if StartsWith(s, '+') || StartsWith(s, '-') then
      var t := ParseTerm(s[1..]);
      if t.Fail? then Fail else AddLoop(if s[0] == '-' then v - t.value else v + t.value, t.rest)
    else Ok(v, s)
  }

  function ParseExpr(s: string): (r: Result<int>)
    ensures r.Ok? ==> |r.rest| < |s|
    decreases |s|, 4
  {
    var t := ParseTerm(s);
    if t.Fail? then Fail else AddLoop(t.value, t.rest)
  }

  // ----- every sentence is read as the grammar's parse -----

  lemma {:induction false} ReadsFactor(f: Factor, tail: string)
    requires FactorOk(f) && EndsFactor(tail)
    ensures ParseFactor(SpellFactor(f) + tail) == Expected(FactorValue(f), tail)
    decreases f
  {
    var s := SpellFactor(f) + tail;
    SpelledFactorStarts(f);
    match f
    case Num(sign, digits) =>
      ScanSpelled(f, tail);
    case Paren(e) =>
      assert s[1..] == SpellExpr(e) + (")" + tail);
      ReadsExpr(e, ")" + tail);
      assert (")" + tail)[1..] == tail;
  }

  lemma {:induction false} ReadsMulTail(v: int, t: MulTail, tail: string)
    requires MulTailOk(t) && EndsTerm(tail)
    ensures MulLoop(v, SpellMulTail(t) + tail) == Expected(MulFold(v, t), tail)
    decreases t
  {
    MulTailStarts(t, tail);
    match t
    case MulEnd =>
    case MulMore(divide, f, rest) =>
      var s := SpellMulTail(t) + tail;
      var follow := SpellMulTail(rest) + tail;
      assert s[1..] == SpellFactor(f) + follow;
      MulTailStarts(rest, tail);
      ReadsFactor(f, follow);
      if FactorValue(f).Some? {
        var x := MulOrDiv(v, divide, FactorValue(f).value);
        if x.Some? {
          ReadsMulTail(x.value, rest, tail);
        }
      }
  }

  lemma {:induction false} ReadsTerm(t: Term, tail: string)
    requires TermOk(t) && EndsTerm(tail)
    ensures ParseTerm(SpellTerm(t) + tail) == Expected(TermValue(t), tail)
    decreases t
  {
    var follow := SpellMulTail(t.tail) + tail;
    ConcatAssoc(SpellFactor(t.first), SpellMulTail(t.tail), tail);
    MulTailStarts(t.tail, tail);
    ReadsFactor(t.first, follow);
    if FactorValue(t.first).Some? {
      ReadsMulTail(FactorValue(t.first).value, t.tail, tail);
    }
  }

  lemma {:induction false} ReadsAddTail(v: int, t: AddTail, tail: string)
    requires AddTailOk(t) && EndsExpr(tail)
    ensures AddLoop(v, SpellAddTail(t) + tail) == Expected(AddFold(v, t), tail)
    decreases t
  {
    hide SpellTerm, TermValue, ParseTerm, TermOk;
    AddTailStarts(t, tail);
    match t
    case AddEnd =>
    case AddMore(minus, term, rest) =>
      var s := SpellAddTail(t) + tail;
      var follow := SpellAddTail(rest) + tail;
      assert s[1..] == SpellTerm(term) + follow;
      AddTailStarts(rest, tail);
      ReadsTerm(term, follow);
      if TermValue(term).Some? {
        var w := TermValue(term).value;
        ReadsAddTail(if minus then v - w else v + w, rest, tail);
      }
  }

  /** Every sentence of the grammar is read to its end and yields its left-associative value. */
  lemma {:induction false} ReadsExpr(e: Expr, tail: string)
    requires ExprOk(e) && EndsExpr(tail)
    ensures ParseExpr(SpellExpr(e) + tail) == Expected(ExprValue(e), tail)
    decreases e
  {
    var follow := SpellAddTail(e.tail) + tail;
    ConcatAssoc(SpellTerm(e.first), SpellAddTail(e.tail), tail);
    AddTailStarts(e.tail, tail);
    ReadsTerm(e.first, follow);
    if TermValue(e.first).Some? {
      ReadsAddTail(TermValue(e.first).value, e.tail, tail);
    }
  }

  // ----- and nothing else is accepted -----

  lemma {:induction false} FactorIsSentence(s: string) returns (f: Factor)
    requires ParseFactor(s).Ok?
    ensures FactorOk(f) && s == SpellFactor(f) + ParseFactor(s).rest && FactorValue(f) == Some(ParseFactor(s).value)
    decreases |s|, 0
  {
    if StartsWith(s, '(') {
      var e := ExprIsSentence(s[1..]);
      f := Paren(e);
      var rest := ParseExpr(s[1..]).rest;
      assert rest == ")" + rest[1..];
      assert s == "(" + s[1..];
    } else {
      ScannedSpells(s);
      f := ScanNumber(s).value;
    }
  }

  lemma {:induction false} MulLoopIsTail(v: int, s: string) returns (t: MulTail)
    requires MulLoop(v, s).Ok?
    ensures MulTailOk(t) && s == SpellMulTail(t) + MulLoop(v, s).rest && MulFold(v, t) == Some(MulLoop(v, s).value)
    ensures !StartsWith(MulLoop(v, s).rest, '*') && !StartsWith(MulLoop(v, s).rest, '/')
    decreases |s|, 1
  {
    if StartsWith(s, '*') || StartsWith(s, '/') {
      var f := FactorIsSentence(s[1..]);
      var p := ParseFactor(s[1..]);
      var rest := MulLoopIsTail(MulOrDiv(v, s[0] == '/', p.value).value, p.rest);
      t := MulMore(s[0] == '/', f, rest);
      assert s == [s[0]] + s[1..];
      ConcatAssoc(SpellFactor(f), SpellMulTail(rest), MulLoop(v, s).rest);
      ConcatAssoc([s[0]], SpellFactor(f) + SpellMulTail(rest), MulLoop(v, s).rest);
      ConcatAssoc([s[0]], SpellFactor(f), SpellMulTail(rest));
    } else {
      t := MulEnd;
    }
  }

  lemma {:induction false} TermIsSentence(s: string) returns (t: Term)
    requires ParseTerm(s).Ok?
    ensures TermOk(t) && s == SpellTerm(t) + ParseTerm(s).rest && TermValue(t) == Some(ParseTerm(s).value)
    decreases |s|, 2
  {
    var f := FactorIsSentence(s);
    var p := ParseFactor(s);
    var tail := MulLoopIsTail(p.value, p.rest);
    t := Term(f, tail);
    ConcatAssoc(SpellFactor(f), SpellMulTail(tail), ParseTerm(s).rest);
  }

  lemma {:induction false} AddLoopIsTail(v: int, s: string) returns (t: AddTail)
    requires AddLoop(v, s).Ok?
    ensures AddTailOk(t) && s == SpellAddTail(t) + AddLoop(v, s).rest && AddFold(v, t) == Some(AddLoop(v, s).value)
    decreases |s|, 3
  {
    hide SpellTerm, TermValue, ParseTerm;
    if StartsWith(s, '+') || StartsWith(s, '-') {
      var term := TermIsSentence(s[1..]);
      var p := ParseTerm(s[1..]);
      var rest := AddLoopIsTail(if s[0] == '-' then v - p.value else v + p.value, p.rest);
      t := AddMore(s[0] == '-', term, rest);
      assert s == [s[0]] + s[1..];
      ConcatAssoc(SpellTerm(term), SpellAddTail(rest), AddLoop(v, s).rest);
      ConcatAssoc([s[0]], SpellTerm(term) + SpellAddTail(rest), AddLoop(v, s).rest);
      ConcatAssoc([s[0]], SpellTerm(term), SpellAddTail(rest));
    } else {
      t := AddEnd;
    }
  }

  /** Whatever the calculator accepts begins with a sentence, and the result is the value of that sentence. */
  lemma {:induction false} ExprIsSentence(s: string) returns (e: Expr)
    requires ParseExpr(s).Ok?
    ensures ExprOk(e) && s == SpellExpr(e) + ParseExpr(s).rest && ExprValue(e) == Some(ParseExpr(s).value)
    decreases |s|, 4
  {
    var t := TermIsSentence(s);
    var p := ParseTerm(s);
    var tail := AddLoopIsTail(p.value, p.rest);
    e := Expr(t, tail);
    ConcatAssoc(SpellTerm(t), SpellAddTail(tail), ParseExpr(s).rest);
  }

  // ----- the program -----

  /** `input` is the current token followed by what getchar has still to deliver; None is exit(1) or a trap. */
  class Calculator {
    var input: string

    constructor (text: string)
      ensures input == text
    {
      input := text;
    }

    method Match(expected: char) returns (ok: bool)
      modifies this
      ensures ok == StartsWith(old(input), expected)
      ensures input == if ok then old(input)[1..] else old(input)
    {
      ok := input != [] && input[0] == expected;
      if ok {
        input := input[1..];
      }
    }

    method Factor() returns (value: Option<int>)
      modifies this
      ensures value.None? <==> ParseFactor(old(input)).Fail?
      ensures value.Some? ==> ParseFactor(old(input)) == Ok(value.value, input)
      decreases |input|, 0
    {
      if StartsWith(input, '(') {
        var _ := Match('(');
        value := Expression();
        if value.None? {
          return None;
        }
        var closed := Match(')');
        if !closed {
          return None;
        }
      } else if StartsNumber(input) {
        var n := ScanNumber(input);
        if n.Fail? {
          return None;
        }
        value, input := Some(Literal(n.value.sign, n.value.digits)), n.rest;
      } else {
        return None;
      }
    }

    method Term() returns (value: Option<int>)
      modifies this
      ensures value.None? <==> ParseTerm(old(input)).Fail?
      ensures value.Some? ==> ParseTerm(old(input)) == Ok(value.value, input)
      decreases |input|, 2
    {
      value := Factor();
      if value.None? {
        return None;
      }
      while StartsWith(input, '*') || StartsWith(input, '/')
        invariant value.Some? && |input| < |old(input)| && ParseTerm(old(input)) == MulLoop(value.value, input)
        decreases |input|
      {
        var divide := input[0] == '/';
        var _ := Match(input[0]);
        var w := Factor();
        if w.None? {
          return None;
        }
        if divide && w.value == 0 {
          return None;
        }
        value := Some(if divide then TruncDiv(value.value, w.value) else value.value * w.value);
      }
    }

    method Expression() returns (value: Option<int>)
      modifies this
      ensures value.None? <==> ParseExpr(old(input)).Fail?
      ensures value.Some? ==> ParseExpr(old(input)) == Ok(value.value, input)
      decreases |input|, 4
    {
      value := Term();
      if value.None? {
        return None;
      }
      while StartsWith(input, '+') || StartsWith(input, '-')
        invariant value.Some? && |input| < |old(input)| && ParseExpr(old(input)) == AddLoop(value.value, input)
        decreases |input|
      {
        var minus := input[0] == '-';
        var _ := Match(input[0]);
        var w := Term();
        if w.None? {
          return None;
        }
        value := Some(if minus then value.value - w.value else value.value + w.value);
      }
    }
  }
}

/** Translation of infix sums of single digits to postfix. */
module Postfix {
  import opened Common

  predicate StartsOp(s: string) { s != [] && (s[0] == '+' || s[0] == '-') }

  // ----- expression trees -----

  datatype Tree = Leaf(digit: char) | Node(minus: bool, left: Tree, right: Tree)

  predicate Ok(t: Tree) {
    match t case Leaf(d) => IsDigit(d) case Node(_, l, r) => Ok(l) && Ok(r)
  }

  /** The trees of the left-recursive grammar: the right operand of every operator is one digit. */
  predicate LeftDeep(t: Tree) {
    t.Node? ==> t.right.Leaf? && LeftDeep(t.left)
  }

  function OpChar(minus: bool): char { if minus then '-' else '+' }

  function Infix(t: Tree): string
    requires LeftDeep(t)
  {
    match t case Leaf(d) => [d] case Node(minus, l, r) => Infix(l) + [OpChar(minus), r.digit]
  }

  function PostOrder(t: Tree): string {
    match t case Leaf(d) => [d] case Node(minus, l, r) => PostOrder(l) + PostOrder(r) + [OpChar(minus)]
  }

  function DigitValue(c: char): (v: int)
    requires IsDigit(c)
    ensures 0 <= v < 10 && "0123456789"[v] == c
  {
    (c - '0') as int
  }

  function Value(t: Tree): int
    requires Ok(t)
  {
    match t
    case Leaf(d) => DigitValue(d)
    case Node(minus, l, r) => if minus then Value(l) - Value(r) else Value(l) + Value(r)
  }

  // ----- the stack machine for postfix -----

  function Run(stack: seq<int>, code: string): Option<seq<int>>
    decreases |code|
  {
    if code == [] then Some(stack)
    else if IsDigit(code[0]) then Run(stack + [DigitValue(code[0])], code[1..])
    else if StartsOp(code) && |stack| >= 2 then
      var n := |stack|;
      var x, y := stack[n - 2], stack[n - 1];
      Run(stack[..n - 2] + [if code[0] == '-' then x - y else x + y], code[1..])
    else None
  }

  /** The same machine with trees in place of numbers: it rebuilds what was translated. */
  function Build(stack: seq<Tree>, code: string): Option<seq<Tree>>
    decreases |code|
  {
    if code == [] then Some(stack)
    else if IsDigit(code[0]) then Build(stack + [Leaf(code[0])], code[1..])
    else if StartsOp(code) && |stack| >= 2 then
      var n := |stack|;
      Build(stack[..n - 2] + [Node(code[0] == '-', stack[n - 2], stack[n - 1])], code[1..])
    else None
  }

  lemma {:induction false} RunPostOrder(t: Tree, stack: seq<int>, code: string)
    requires Ok(t)
    ensures Run(stack, PostOrder(t) + code) == Run(stack + [Value(t)], code)
    decreases t
  {
    match t
    case Leaf(d) =>
      assert (PostOrder(t) + code)[1..] == code;
    case Node(minus, l, r) =>
      var op := [OpChar(minus)] + code;
      ConcatAssoc(PostOrder(l) + PostOrder(r), [OpChar(minus)], code);
      ConcatAssoc(PostOrder(l), PostOrder(r), op);
      RunPostOrder(l, stack, PostOrder(r) + op);
      RunPostOrder(r, stack + [Value(l)], op);
      var full := stack + [Value(l)] + [Value(r)];
      assert full[..|full| - 2] == stack && op[1..] == code;
  }

  lemma {:induction false} BuildPostOrder(t: Tree, stack: seq<Tree>, code: string)
    requires Ok(t)
    ensures Build(stack, PostOrder(t) + code) == Build(stack + [t], code)
    decreases t
  {
    match t
    case Leaf(d) =>
      assert (PostOrder(t) + code)[1..] == code;
    case Node(minus, l, r) =>
      var op := [OpChar(minus)] + code;
      ConcatAssoc(PostOrder(l) + PostOrder(r), [OpChar(minus)], code);
      ConcatAssoc(PostOrder(l), PostOrder(r), op);
      BuildPostOrder(l, stack, PostOrder(r) + op);
      BuildPostOrder(r, stack + [l], op);
      var full := stack + [l] + [r];
      assert full[..|full| - 2] == stack && op[1..] == code;
  }

  /** Postfix needs no parentheses: a tree can be recovered from its translation. */
  lemma PostOrderUnique(t: Tree, u: Tree)
    requires Ok(t) && Ok(u) && PostOrder(t) == PostOrder(u)
    ensures t == u
  {
    assert PostOrder(t) + [] == PostOrder(t) && PostOrder(u) + [] == PostOrder(u);
    BuildPostOrder(t, [], []);
    BuildPostOrder(u, [], []);
    assert [] + [t] == [t] && [] + [u] == [u];
    assert Build([t], []) == Some([t]) && Build([u], []) == Some([u]);
    assert [t][0] == [u][0];
  }

  // ----- the translator as a function -----

  /** Success or syntax error, what has been written, and the lookahead with the unread input. */
  datatype Outcome = Outcome(ok: bool, output: string, rest: string)

  function Prefixed(head: string, o: Outcome): Outcome { Outcome(o.ok, head + o.output, o.rest) }

  function Operators(s: string): (o: Outcome)
    ensures |o.rest| <= |s|
    decreases |s|
  {
    if !StartsOp(s) then Outcome(true, "", s)
    else if !StartsDigit(s[1..]) then Outcome(false, "", s[1..])
    else Prefixed([s[1], s[0]], Operators(s[2..]))
  }

  function Translate(s: string): Outcome {
    if !StartsDigit(s) then Outcome(false, "", s) else Prefixed([s[0]], Operators(s[1..]))
  }

  // ----- what it accepts, and what it writes -----

  lemma {:induction false} TranslateAfter(t: Tree, s: string)
    requires Ok(t) && LeftDeep(t)
    ensures Translate(Infix(t) + s) == Prefixed(PostOrder(t), Operators(s))
    decreases t
  {
    match t
    case Leaf(d) =>
      assert (Infix(t) + s)[1..] == s;
    case Node(minus, l, r) =>
      var step := [OpChar(minus), r.digit];
      ConcatAssoc(Infix(l), step, s);
      TranslateAfter(l, step + s);
      assert (step + s)[1] == r.digit && (step + s)[1..][0] == r.digit && (step + s)[2..] == s;
      ConcatAssoc(PostOrder(l), [r.digit, OpChar(minus)], Operators(s).output);
      assert PostOrder(l) + [r.digit, OpChar(minus)] == PostOrder(t);
  }

  /** Every sum of digits is translated to the post-order of its left-associative tree. */
  lemma TranslatesSums(t: Tree, tail: string)
    requires Ok(t) && LeftDeep(t) && !StartsOp(tail)
    ensures Translate(Infix(t) + tail) == Outcome(true, PostOrder(t), tail)
  {
    TranslateAfter(t, tail);
    assert PostOrder(t) + "" == PostOrder(t);
  }

  lemma {:induction false} OperatorsGrow(acc: Tree, s: string) returns (t: Tree, left: string)
    requires Ok(acc) && LeftDeep(acc)
    ensures Ok(t) && LeftDeep(t)
    ensures Infix(acc) + s == Infix(t) + left
    ensures PostOrder(acc) + Operators(s).output == PostOrder(t)
    ensures Operators(s).ok ==> left == Operators(s).rest && !StartsOp(left)
    ensures !Operators(s).ok ==> StartsOp(left) && left[1..] == Operators(s).rest && !StartsDigit(left[1..])
    decreases |s|
  {
    if !StartsOp(s) || !StartsDigit(s[1..]) {
      t, left := acc, s;
      assert PostOrder(acc) + "" == PostOrder(acc);
    } else {
      var next := Node(s[0] == '-', acc, Leaf(s[1]));
      t, left := OperatorsGrow(next, s[2..]);
      assert s == [s[0], s[1]] + s[2..];
      ConcatAssoc(Infix(acc), [s[0], s[1]], s[2..]);
      ConcatAssoc(PostOrder(acc), [s[1], s[0]], Operators(s[2..]).output);
      assert PostOrder(next) == PostOrder(acc) + [s[1], s[0]];
    }
  }

  /** Input that starts with a digit holds a longest sum, which is what has been written, even on a syntax error:
      that one comes when an operator is not followed by a digit. */
  lemma WritesLongestSum(s: string) returns (t: Tree, left: string)
    requires StartsDigit(s)
    ensures Ok(t) && LeftDeep(t) && s == Infix(t) + left && Translate(s).output == PostOrder(t)
    ensures Translate(s).ok <==> !StartsOp(left)
    ensures Translate(s).ok ==> Translate(s).rest == left
    ensures !Translate(s).ok ==> Translate(s).rest == left[1..] && !StartsDigit(left[1..])
  {
    t, left := OperatorsGrow(Leaf(s[0]), s[1..]);
    assert s == Infix(Leaf(s[0])) + s[1..];
  }

  predicate IsSum(s: string, t: Tree, tail: string) {
    Ok(t) && LeftDeep(t) && s == Infix(t) + tail && !StartsOp(tail)
  }

  lemma AcceptsIff(s: string)
    ensures Translate(s).ok <==> exists t, tail :: IsSum(s, t, tail)
  {
    if Translate(s).ok {
      var t, left := WritesLongestSum(s);
      assert IsSum(s, t, left);
    }
    if t, tail :| IsSum(s, t, tail) {
      TranslatesSums(t, tail);
    }
  }

  // ----- meaning -----

  function SignedDigits(s: string): int
    decreases |s|
  {
    if StartsOp(s) && StartsDigit(s[1..]) then
      (if s[0] == '-' then -DigitValue(s[1]) else DigitValue(s[1])) + SignedDigits(s[2..])
    else 0
  }

  /** The value of an infix sum, read off the text: the first digit and then the signed ones. */
  function SumOf(s: string): int
    requires StartsDigit(s)
  {
    DigitValue(s[0]) + SignedDigits(s[1..])
  }

  lemma {:induction false} OperatorsKeepValue(acc: int, s: string)
    ensures Run([acc], Operators(s).output) == Some([acc + SignedDigits(s)])
    decreases |s|
  {
    if StartsOp(s) && StartsDigit(s[1..]) {
      var d, op := s[1], s[0];
      var out := Operators(s[2..]).output;
      var next := if op == '-' then acc - DigitValue(d) else acc + DigitValue(d);
      OperatorsKeepValue(next, s[2..]);
      RunStep(acc, d, op, out);
      assert s[1..][0] == d;
    }
  }

  lemma RunStep(acc: int, d: char, op: char, code: string)
    requires IsDigit(d) && (op == '+' || op == '-')
    ensures Run([acc], [d, op] + code) ==
            Run([if op == '-' then acc - DigitValue(d) else acc + DigitValue(d)], code)
  {
    var all := [d, op] + code;
    var v := DigitValue(d);
    assert all[1..] == [op] + code && all[1..][1..] == code;
    assert [acc] + [v] == [acc, v];
    assert [acc, v][..0] == [];
    var r := if op == '-' then acc - v else acc + v;
    assert [acc, v][..0] + [r] == [r];
    assert Run([acc, v], [op] + code) == Run([r], code);
  }

  /** The postfix output, run on the stack machine, leaves exactly the left-associative value of the input:
      the value of its tree, and the signed sum of its digits. A syntax error leaves that of the part translated. */
  lemma TranslationKeepsMeaning(s: string) returns (t: Tree, left: string)
    requires StartsDigit(s)
    ensures Ok(t) && LeftDeep(t) && s == Infix(t) + left && (Translate(s).ok <==> !StartsOp(left))
    ensures Run([], Translate(s).output) == Some([Value(t)])
    ensures Value(t) == SumOf(s)
  {
    t, left := WritesLongestSum(s);
    assert PostOrder(t) + [] == PostOrder(t);
    RunPostOrder(t, [], []);
    var v := DigitValue(s[0]);
    var out := Translate(s).output;
    OperatorsKeepValue(v, s[1..]);
    assert out[1..] == Operators(s[1..]).output && [] + [v] == [v];
    assert Run([], out) == Run([v], out[1..]);
    assert Run([] + [Value(t)], []) == Some([Value(t)]);
    assert [Value(t)][0] == [SumOf(s)][0];
  }

  // ----- the program -----

  /** `input` is the lookahead followed by the unread bytes; a false result is the syntax error thrown. */
  class Parser {
    var input: string
    var output: string

    constructor (text: string)
      ensures input == text && output == ""
    {
      input, output := text, "";
    }

    method Match(t: char) returns (ok: bool)
      modifies this
      ensures ok == (old(input) != [] && old(input)[0] == t)
      ensures input == (if ok then old(input)[1..] else old(input)) && output == old(output)
    {
      ok := input != [] && input[0] == t;
      if ok {
        input := input[1..];
      }
    }

    method Term() returns (ok: bool)
      modifies this
      ensures ok == StartsDigit(old(input))
      ensures input == if ok then old(input)[1..] else old(input)
      ensures output == old(output) + if ok then [old(input)[0]] else ""
    {
      ok := StartsDigit(input);
      if ok {
        output := output + [input[0]];
        ok := Match(input[0]);
      }
    }

    method Expr() returns (ok: bool)
      modifies this
      ensures var r := Translate(old(input)); ok == r.ok && input == r.rest && output == old(output) + r.output
    {
      ghost var n := |output|;
      ok := Term();
      if !ok {
        return;
      }
      while StartsOp(input)
        invariant n <= |output| && output[..n] == old(output)
        invariant Translate(old(input)) == Prefixed(output[n..], Operators(input))
        decreases |input|
      {
        ghost var before, o := input, output[n..];
        var op := input[0];
        var _ := Match(op);
        ok := Term();
        if !ok {
          return;
        }
        output := output + [op];
        assert output[n..] == o + [before[1], op];
        ConcatAssoc(o, [before[1], op], Operators(input).output);
      }
      ok := true;
    }
  }
}

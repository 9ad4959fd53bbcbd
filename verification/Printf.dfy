/** vfprintf of the small C runtime: a two-state scanner over the format. */
module Printf {
  import opened NumberText

  datatype Arg = IntArg(value: int) | StrArg(text: string)

  /** The characters in front of the terminator. */
  predicate IsCString(s: string) { NUL !in s }

  // ----- what a format says -----

  /** A format is a sequence of directives. A percent sign before any other character is dropped. */
  datatype Directive =
    | Plain(c: char)    // a character other than %
    | Percent           // %%
    | Decimal           // %d
    | Text              // %s
    | Unknown(c: char)  // % followed by anything else
    | Dangling          // % at the very end

  function ParseFormat(f: string): seq<Directive> {
    if f == [] then []
    else if f[0] != '%' then [Plain(f[0])] + ParseFormat(f[1..])
    else if |f| == 1 then [Dangling]
    else [Conversion(f[1])] + ParseFormat(f[2..])
  }

  function Conversion(c: char): Directive {
    if c == '%' then Percent else if c == 'd' then Decimal else if c == 's' then Text else Unknown(c)
  }

  function Written(d: Directive): string {
    match d
    case Plain(c) => [c]
    case Percent => "%%"
    case Decimal => "%d"
    case Text => "%s"
    case Unknown(c) => ['%', c]
    case Dangling => "%"
  }

  function Render(ds: seq<Directive>): string {
    if ds == [] then [] else Written(ds[0]) + Render(ds[1..])
  }

  /** The directive lists that are spelled unambiguously. */
  predicate Canonical(ds: seq<Directive>) {
    && (forall i :: 0 <= i < |ds| && ds[i].Plain? ==> ds[i].c != '%')
    && (forall i :: 0 <= i < |ds| && ds[i].Unknown? ==> ds[i].c != '%' && ds[i].c != 'd' && ds[i].c != 's')
    && (forall i :: 0 <= i < |ds| - 1 ==> !ds[i].Dangling?)
  }

  lemma {:induction false} ParseOfRender(ds: seq<Directive>)
    requires Canonical(ds)
    ensures ParseFormat(Render(ds)) == ds
  {
    if ds != [] {
      var d, rest := ds[0], ds[1..];
      ParseOfRender(rest);
      var f := Render(ds);
      assert f == Written(d) + Render(rest);
      if d.Plain? {
        assert f[1..] == Render(rest);
      } else if d.Dangling? {
        assert rest == [];
      } else {
        assert f[2..] == Render(rest);
      }
    }
  }

  lemma RenderCons(d: Directive, ds: seq<Directive>)
    ensures Render([d] + ds) == Written(d) + Render(ds)
  {
    assert ([d] + ds)[1..] == ds;
  }

  lemma NothingRendered()
    ensures Render([]) == [] && Canonical([]) && Canonical([Dangling])
  {
  }

  lemma {:induction false} RenderOfParse(f: string)
    ensures Render(ParseFormat(f)) == f && Canonical(ParseFormat(f))
    decreases |f|
  {
    hide Render, Canonical;
    NothingRendered();
    if f != [] {
      if f[0] != '%' {
        RenderOfParse(f[1..]);
        RenderCons(Plain(f[0]), ParseFormat(f[1..]));
        CanonicalCons(Plain(f[0]), ParseFormat(f[1..]));
        assert f == [f[0]] + f[1..];
      } else if |f| > 1 {
        RenderOfParse(f[2..]);
        RenderCons(Conversion(f[1]), ParseFormat(f[2..]));
        CanonicalCons(Conversion(f[1]), ParseFormat(f[2..]));
        assert f == [f[0], f[1]] + f[2..];
      } else {
        RenderCons(Dangling, []);
        assert f == "%" && [Dangling] + [] == [Dangling];
      }
    }
  }

  lemma CanonicalCons(d: Directive, ds: seq<Directive>)
    requires Canonical(ds) && !d.Dangling? && (d.Plain? ==> d.c != '%')
    requires d.Unknown? ==> d.c != '%' && d.c != 'd' && d.c != 's'
    ensures Canonical([d] + ds)
  {
    var all := [d] + ds;
    assert forall i :: 0 < i < |all| ==> all[i] == ds[i - 1];
  }

  // ----- what must come out -----

  /** The arguments have the kinds that the directives ask for, and the numbers are within range. */
  predicate ArgsFit(ds: seq<Directive>, args: seq<Arg>) {
    if ds == [] then true
    else if ds[0].Decimal? then
      args != [] && args[0].IntArg? && INT_MIN < args[0].value <= INT_MAX && ArgsFit(ds[1..], args[1..])
    else if ds[0].Text? then
      args != [] && args[0].StrArg? && ArgsFit(ds[1..], args[1..])
    else ArgsFit(ds[1..], args)
  }

  /** The expansion that the format stands for. */
  function Expansion(ds: seq<Directive>, args: seq<Arg>): string
    requires ArgsFit(ds, args)
  {
    if ds == [] then []
    else
      match ds[0]
      case Plain(c) => [c] + Expansion(ds[1..], args)
      case Percent => "%" + Expansion(ds[1..], args)
      case Decimal => SignedText(args[0].value, 10) + Expansion(ds[1..], args[1..])
      case Text => args[0].text + Expansion(ds[1..], args[1..])
      case Unknown(c) => [c] + Expansion(ds[1..], args)
      case Dangling => Expansion(ds[1..], args)
  }

  /** fputc returns the character as a signed char, so it looks like a failure outside ASCII. */
  predicate Ascii(c: char) { c as int < 128 }

  predicate AllAscii(ds: seq<Directive>) {
    forall i :: 0 <= i < |ds| && (ds[i].Plain? || ds[i].Unknown?) ==> ds[i].c as int < 128
  }

  /** What is written, and whether the end of the format was reached. */
  datatype Output = Output(text: string, complete: bool)

  function Emit(ds: seq<Directive>, args: seq<Arg>): Output
    requires ArgsFit(ds, args)
  {
    if ds == [] then Output([], true)
    else
      match ds[0]
      case Plain(c) => if Ascii(c) then After([c], Emit(ds[1..], args)) else Output([c], false)
      case Percent => After("%", Emit(ds[1..], args))
      case Decimal => After(SignedText(args[0].value, 10), Emit(ds[1..], args[1..]))
      case Text => After(args[0].text, Emit(ds[1..], args[1..]))
      case Unknown(c) => if Ascii(c) then After([c], Emit(ds[1..], args)) else Output([c], false)
      case Dangling => Emit(ds[1..], args)
  }

  function After(prefix: string, o: Output): Output { Output(prefix + o.text, o.complete) }

  /** The end of the format is reached exactly when every character copied from it is ASCII. */
  lemma {:induction false} EmitsExpansionIff(ds: seq<Directive>, args: seq<Arg>)
    requires ArgsFit(ds, args)
    ensures Emit(ds, args).complete <==> AllAscii(ds)
    ensures Emit(ds, args).complete ==> Emit(ds, args).text == Expansion(ds, args)
    ensures Emit(ds, args).text <= Expansion(ds, args)
    decreases |ds|
  {
    if ds != [] {
      EmitsExpansionIff(ds[1..], ArgsAfter(ds, args));
      assert AllAscii(ds) <==> !Stops(ds[0]) && AllAscii(ds[1..]) by {
        assert forall i :: 0 < i < |ds| ==> ds[i] == ds[1..][i - 1];
        assert forall i :: 0 <= i < |ds[1..]| ==> ds[1..][i] == ds[i + 1];
      }
    }
  }

  /** The character is written, but fputc's result makes the scanner give up. */
  predicate Stops(d: Directive) { (d.Plain? || d.Unknown?) && !Ascii(d.c) }

  function ArgsAfter(ds: seq<Directive>, args: seq<Arg>): seq<Arg>
    requires ds != [] && ArgsFit(ds, args)
  {
    if ds[0].Decimal? || ds[0].Text? then args[1..] else args
  }

  /** Directives that produce nothing: a dangling % and empty strings. */
  predicate Silent(ds: seq<Directive>, args: seq<Arg>)
    requires ArgsFit(ds, args)
  {
    ds == [] ||
    ((ds[0].Dangling? || (ds[0].Text? && args[0].text == "")) && Silent(ds[1..], ArgsAfter(ds, args)))
  }

  /** Behind the first character at which the scanner gives up nothing would have been written anyway. */
  predicate NothingLost(ds: seq<Directive>, args: seq<Arg>)
    requires ArgsFit(ds, args)
  {
    if ds == [] then true
    else if Stops(ds[0]) then Silent(ds[1..], args)
    else NothingLost(ds[1..], ArgsAfter(ds, args))
  }

  lemma {:induction false} SilentIff(ds: seq<Directive>, args: seq<Arg>)
    requires ArgsFit(ds, args)
    ensures Silent(ds, args) <==> Expansion(ds, args) == ""
    decreases |ds|
  {
    if ds != [] {
      SilentIff(ds[1..], ArgsAfter(ds, args));
    }
  }

  lemma SamePrefix(a: string, b: string, c: string)
    ensures a + b == a + c <==> b == c
  {
    if a + b == a + c {
      assert b == (a + b)[|a|..] && c == (a + c)[|a|..];
    }
  }

  /** The whole expansion is written exactly when nothing is lost behind the first non-ASCII character. */
  lemma {:induction false} WritesExpansionIff(ds: seq<Directive>, args: seq<Arg>)
    requires ArgsFit(ds, args)
    ensures Emit(ds, args).text == Expansion(ds, args) <==> NothingLost(ds, args)
    decreases |ds|
  {
    hide SignedText;
    if ds != [] {
      var rest, args' := ds[1..], ArgsAfter(ds, args);
      var now := match ds[0]
        case Decimal => SignedText(args[0].value, 10)
        case Text => args[0].text
        case Percent => "%"
        case Plain(c) => [c]
        case Unknown(c) => [c]
        case Dangling => "";
      assert Expansion(ds, args) == now + Expansion(rest, args');
      if Stops(ds[0]) {
        SilentIff(rest, args);
        SamePrefix(now, "", Expansion(rest, args));
        assert Emit(ds, args).text == now + "";
      } else {
        WritesExpansionIff(rest, args');
        SamePrefix(now, Emit(rest, args').text, Expansion(rest, args'));
        assert Emit(ds, args).text == now + Emit(rest, args').text;
      }
    }
  }

  // ----- the scanner -----

  /** strlen of a terminated buffer. */
  method Strlen(buf: array<char>) returns (len: nat)
    requires exists k :: 0 <= k < buf.Length && buf[k] == NUL
    ensures len < buf.Length && buf[len] == NUL && forall i :: 0 <= i < len ==> buf[i] != NUL
  {
    len := 0;
    while buf[len] != NUL
      invariant len < buf.Length && forall i :: 0 <= i < len ==> buf[i] != NUL
      invariant exists k :: len <= k < buf.Length && buf[k] == NUL
      decreases buf.Length - len
    {
      len := len + 1;
    }
  }

  /** The text of a decimal argument, through itoa and the 16-byte buffer of vfprintf. */
  method DecimalText(n: int) returns (text: string)
    requires INT_MIN < n <= INT_MAX
    ensures text == SignedText(n, 10)
  {
    var buf := new char[16];
    DecimalFits(n);
    ItoaRoundTrip(n, 10);
    Itoa(n, buf, 10);
    ghost var t := SignedText(n, 10);
    assert forall i :: 0 <= i < |t| ==> buf[i] == t[i] by {
      assert forall i :: 0 <= i < |t| ==> buf[..|t|][i] == t[i];
    }
    var len := Strlen(buf);
    assert len == |t|;
    text := buf[..len];
  }

  /** The rest of the format as the scanner sees it: a pending % belongs to it. */
  function Pending(translating: bool, rest: string): string {
    if translating then "%" + rest else rest
  }

  /**
   * The expansion with its length as the result comes out exactly for ASCII formats; otherwise EOF is
   * returned after a prefix of the expansion, which is all of it exactly if nothing is lost.
   */
  method Vfprintf(format: string, args: seq<Arg>) returns (ret: int, out: string)
    requires ArgsFit(ParseFormat(format), args)
    requires IsCString(format) && forall i :: 0 <= i < |args| && args[i].StrArg? ==> IsCString(args[i].text)
    ensures var ds := ParseFormat(format);
            && (out == Expansion(ds, args) && ret == |out| <==> AllAscii(ds))
            && (out == Expansion(ds, args) <==> NothingLost(ds, args))
            && (!AllAscii(ds) ==> ret == -1 && out <= Expansion(ds, args))
    ensures (forall i :: 0 <= i < |format| ==> format[i] as int < 128) ==> ret == |out|
  {
    ret, out := Scan(format, args);
    EmitsExpansionIff(ParseFormat(format), args);
    WritesExpansionIff(ParseFormat(format), args);
    if forall i :: 0 <= i < |format| ==> format[i] as int < 128 {
      AsciiFormat(format);
    }
  }

  /** An ASCII format has only ASCII directives. */
  lemma {:induction false} AsciiFormat(f: string)
    requires forall i :: 0 <= i < |f| ==> f[i] as int < 128
    ensures AllAscii(ParseFormat(f))
    decreases |f|
  {
    if f != [] {
      var k := if f[0] != '%' || |f| == 1 then 1 else 2;
      AsciiFormat(f[k..]);
      assert k == 1 && f[0] == '%' ==> ParseFormat(f) == [Dangling];
    }
  }

  function PlainText(f: string): (ds: seq<Directive>)
    ensures |ds| == |f| && forall i :: 0 <= i < |f| ==> ds[i] == Plain(f[i])
  {
    seq(|f|, i requires 0 <= i < |f| => Plain(f[i]))
  }

  lemma {:induction false} ParseConcat(f: string, g: string)
    requires '%' !in f
    ensures ParseFormat(f + g) == PlainText(f) + ParseFormat(g)
    decreases |f|
  {
    if f == [] {
      assert f + g == g;
    } else {
      ParseConcat(f[1..], g);
      assert (f + g)[1..] == f[1..] + g;
      assert PlainText(f) == [Plain(f[0])] + PlainText(f[1..]);
    }
  }

  lemma LastDirective(c: char)
    ensures ParseFormat(['%', c]) == [Conversion(c)]
  {
    assert ['%', c][2..] == "";
  }

  /** What the scanner makes of text without a percent sign, of each conversion, and of one that it does not know. */
  lemma DirectivesParse(f: string, c: char)
    requires '%' !in f
    ensures ParseFormat(f + ['%', c]) == PlainText(f) +
              [if c == 'd' then Decimal else if c == 's' then Text else if c == '%' then Percent else Unknown(c)]
    ensures ParseFormat(f + "%") == PlainText(f) + [Dangling]
  {
    ParseConcat(f, ['%', c]);
    ParseConcat(f, "%");
    LastDirective(c);
    assert ParseFormat("%") == [Dangling];
  }

  /** And what each of them stands for. */
  lemma DirectivesExpand(n: int, text: string, c: char)
    requires INT_MIN < n <= INT_MAX
    ensures ArgsFit([Decimal], [IntArg(n)]) && Expansion([Decimal], [IntArg(n)]) == SignedText(n, 10)
    ensures ArgsFit([Text], [StrArg(text)]) && Expansion([Text], [StrArg(text)]) == text
    ensures Expansion([Percent], []) == "%" && Expansion([Unknown(c)], []) == [c]
    ensures Expansion([Plain(c)], []) == [c] && Expansion([Dangling], []) == ""
  {
    hide SignedText;
    var none: seq<Directive>, args: seq<Arg> := [], [];
    assert ArgsFit(none, args) && Expansion(none, args) == "";
    assert [Decimal][1..] == none && [Text][1..] == none && [IntArg(n)][1..] == args && [StrArg(text)][1..] == args;
    assert [Percent][1..] == none && [Unknown(c)][1..] == none && [Plain(c)][1..] == none && [Dangling][1..] == none;
    assert text + "" == text && SignedText(n, 10) + "" == SignedText(n, 10);
  }

  /** The loop of vfprintf. */
  method Scan(format: string, args: seq<Arg>) returns (ret: int, out: string)
    requires ArgsFit(ParseFormat(format), args)
    ensures out == Emit(ParseFormat(format), args).text
    ensures ret == if Emit(ParseFormat(format), args).complete then |out| else -1
  {
    hide Emit, ParseFormat, ArgsFit, SignedText;
    var translating, p, k := false, 0, 0;
    out, ret := "", 0;
    ghost var whole := Emit(ParseFormat(format), args);
    assert format[0..] == format && args[0..] == args;
    while p < |format|
      invariant p <= |format| && k <= |args| && ret == |out|
      invariant ArgsFit(ParseFormat(Pending(translating, format[p..])), args[k..])
      invariant whole == After(out, Emit(ParseFormat(Pending(translating, format[p..])), args[k..]))
    {
      var c := format[p];
      ScanStep(translating, format[p..], args[k..]);
      assert format[p..][1..] == format[p + 1..];
      assert k < |args| ==> args[k..][1..] == args[k + 1..];
      if c == '%' {
        if !translating {
          translating := true;
        } else {
          AfterAfter(out, "%", Emit(ParseFormat(format[p + 1..]), args[k..]));
          out, ret, translating := out + "%", ret + 1, false;
        }
      } else if c == 'd' && translating {
        translating := false;
        var text := DecimalText(args[k].value);
        AfterAfter(out, text, Emit(ParseFormat(format[p + 1..]), args[k + 1..]));
        out, ret, k := out + text, ret + |text|, k + 1;
      } else if c == 's' && translating {
        translating := false;
        AfterAfter(out, args[k].text, Emit(ParseFormat(format[p + 1..]), args[k + 1..]));
        out, ret, k := out + args[k].text, ret + |args[k].text|, k + 1;
      } else {
        translating := false;
        if !Ascii(c) {
          return -1, out + [c];
        }
        AfterAfter(out, [c], Emit(ParseFormat(format[p + 1..]), args[k..]));
        out := out + [c];
        ret := ret + 1;
      }
      p := p + 1;
    }
    assert format[p..] == "";
    NothingLeft(translating, args[k..]);
  }

  lemma NothingLeft(translating: bool, args: seq<Arg>)
    requires ArgsFit(ParseFormat(Pending(translating, "")), args)
    ensures Emit(ParseFormat(Pending(translating, "")), args) == Output([], true)
  {
    if translating {
      assert Pending(true, "") == "%" && ParseFormat("%") == [Dangling];
    }
  }

  lemma AfterAfter(a: string, b: string, o: Output)
    ensures After(a, After(b, o)) == After(a + b, o)
  {
  }

  /** One character of the format, in either state of the scanner. */
  lemma ScanStep(translating: bool, f: string, args: seq<Arg>)
    requires f != [] && ArgsFit(ParseFormat(Pending(translating, f)), args)
    ensures var c, rest := f[0], f[1..];
            var now := Emit(ParseFormat(Pending(translating, f)), args);
            if c == '%' && !translating then Pending(true, rest) == f
            else if c == '%' then
              ArgsFit(ParseFormat(rest), args) && now == After("%", Emit(ParseFormat(rest), args))
            else if c == 'd' && translating then
              && args != [] && args[0].IntArg? && INT_MIN < args[0].value <= INT_MAX
              && ArgsFit(ParseFormat(rest), args[1..])
              && now == After(SignedText(args[0].value, 10), Emit(ParseFormat(rest), args[1..]))
            else if c == 's' && translating then
              && args != [] && args[0].StrArg?
              && ArgsFit(ParseFormat(rest), args[1..])
              && now == After(args[0].text, Emit(ParseFormat(rest), args[1..]))
            else
              && ArgsFit(ParseFormat(rest), args)
              && now == if Ascii(c) then After([c], Emit(ParseFormat(rest), args)) else Output([c], false)
  {
    var c, rest := f[0], f[1..];
    var pending := Pending(translating, f);
    var ds := ParseFormat(pending);
    if translating {
      assert pending[0] == '%' && pending[1] == c && pending[2..] == rest;
      assert ds[0] == Conversion(c) && ds[1..] == ParseFormat(rest);
    } else if c != '%' {
      assert ds[0] == Plain(c) && ds[1..] == ParseFormat(rest);
    } else {
      assert f == "%" + rest;
    }
  }
}

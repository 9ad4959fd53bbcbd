/** itoa of the small C runtime: digits written backwards, then reversed in place. */
module NumberText {
  import opened Common

  const INT_MIN: int := -0x8000_0000
  const INT_MAX: int := 0x7FFF_FFFF
  const NUL: char := 0 as char

  // ----- digits -----

  function Digit(v: nat): char
    requires v < 36
  {
    if v < 10 then '0' + v as char else 'A' + (v - 10) as char
  }

  function DigitValue(c: char): int {
    if '0' <= c <= '9' then (c - '0') as int
    else if 'A' <= c <= 'Z' then (c - 'A') as int + 10
    else -1
  }

  lemma DigitRoundTrip(v: nat)
    requires v < 36
    ensures DigitValue(Digit(v)) == v && Digit(v) != NUL && Digit(v) != '-'
    ensures Digit(v) == '0' <==> v == 0
  {
  }

  /** The table of digits in the source. */
  lemma DigitTable(v: nat)
    requires v < 36
    ensures var table := "0123456789ABCDEFGHIJKLMNOPQRSTUVWXYZ"; |table| == 36 && Digit(v) == table[v]
  {
  }

  // ----- the specification: positional notation, most significant digit first -----

  predicate Radix(r: int) { 2 <= r <= 36 }

  /** C division of nonnegative numbers. */
  function Quot(n: nat, r: nat): (q: nat)
    requires r >= 2
    ensures n > 0 ==> q < n
    ensures n < r <==> q == 0
  {
    n / r
  }

  function Rem(n: nat, r: nat): (d: nat)
    requires r >= 2
    ensures d < r
  {
    n % r
  }

  lemma QuotRem(n: nat, r: nat)
    requires r >= 2
    ensures Quot(n, r) * r + Rem(n, r) == n
    ensures n < r ==> Rem(n, r) == n
  {
  }

  function Text(n: nat, radix: nat): (s: string)
    requires Radix(radix)
    ensures s != []
    decreases n
  {
    if n < radix then [Digit(n)] else Text(Quot(n, radix), radix) + [Digit(Rem(n, radix))]
  }

  /** What itoa produces for the inputs it accepts. */
  function SignedText(n: int, radix: nat): (s: string)
    requires Radix(radix)
    ensures s != []
  {
    if n < 0 then "-" + Text(-n, radix) else Text(n, radix)
  }

  function Parse(s: string, radix: nat): int {
    if s == [] then 0 else Parse(s[..|s| - 1], radix) * radix + DigitValue(s[|s| - 1])
  }

  function ParseSigned(s: string, radix: nat): int {
    if s != [] && s[0] == '-' then -Parse(s[1..], radix) else Parse(s, radix)
  }

  lemma {:induction false} TextParses(n: nat, radix: nat)
    requires Radix(radix)
    ensures Parse(Text(n, radix), radix) == n
    decreases n
  {
    hide Quot, Rem, Digit, DigitValue;
    var t := Text(n, radix);
    if n < radix {
      DigitRoundTrip(n);
      assert t[..0] == [];
    } else {
      TextParses(Quot(n, radix), radix);
      DigitRoundTrip(Rem(n, radix));
      QuotRem(n, radix);
      assert t[..|t| - 1] == Text(Quot(n, radix), radix);
    }
  }

  lemma {:induction false} TextShape(n: nat, radix: nat)
    requires Radix(radix)
    ensures n > 0 ==> Text(n, radix)[0] != '0'
    ensures n == 0 ==> Text(n, radix) == "0"
    ensures forall i :: 0 <= i < |Text(n, radix)| ==> Text(n, radix)[i] != NUL && Text(n, radix)[i] != '-'
    decreases n
  {
    hide Quot, Rem, Digit;
    if n < radix {
      DigitRoundTrip(n);
    } else {
      TextShape(Quot(n, radix), radix);
      DigitRoundTrip(Rem(n, radix));
    }
  }

  /** Reading the text of a number gives the number back, in every radix, with no leading zero. */
  lemma ItoaRoundTrip(n: int, radix: nat)
    requires Radix(radix)
    ensures ParseSigned(SignedText(n, radix), radix) == n
    ensures var digits := if n < 0 then SignedText(n, radix)[1..] else SignedText(n, radix);
            digits == "0" || (digits != [] && digits[0] != '0')
    ensures forall i :: 0 <= i < |SignedText(n, radix)| ==> SignedText(n, radix)[i] != NUL
    ensures SignedText(n, radix)[0] == '-' <==> n < 0
  {
    var m: nat := if n < 0 then -n else n;
    TextParses(m, radix);
    TextShape(m, radix);
    if n < 0 {
      assert SignedText(n, radix)[1..] == Text(m, radix);
    }
  }

  lemma {:induction false} TextLength(n: nat, radix: nat, k: nat)
    requires Radix(radix) && k >= 1 && n < Pow(radix, k)
    ensures |Text(n, radix)| <= k
    decreases k
  {
    hide Quot, Rem;
    if n >= radix {
      QuotRem(n, radix);
      if Quot(n, radix) >= Pow(radix, k - 1) {
        MulMonotone(Pow(radix, k - 1), Quot(n, radix), radix);
      }
      TextLength(Quot(n, radix), radix, k - 1);
    }
  }

  function Pow(b: nat, k: nat): nat {
    if k == 0 then 1 else b * Pow(b, k - 1)
  }

  /** The decimal text of a 32-bit number and its terminator fit a buffer of 16 bytes. */
  lemma DecimalFits(n: int)
    requires INT_MIN < n <= INT_MAX
    ensures |SignedText(n, 10)| + 1 <= 12
  {
    assert Pow(10, 5) == 100000;
    assert Pow(10, 10) == 10000000000 by {
      PowSplit(10, 5, 5);
    }
    TextLength(if n < 0 then -n else n, 10, 10);
  }

  lemma {:induction false} PowSplit(b: nat, j: nat, k: nat)
    ensures Pow(b, j + k) == Pow(b, j) * Pow(b, k)
  {
    if j > 0 {
      PowSplit(b, j - 1, k);
      MulAssoc(b, Pow(b, j - 1), Pow(b, k));
    }
  }

  lemma MulAssoc(a: nat, b: nat, c: nat)
    ensures a * (b * c) == (a * b) * c
  {
  }

  // ----- the loops of itoa -----

  function Reversed(s: string): (r: string)
    ensures |r| == |s| && forall i :: 0 <= i < |s| ==> r[i] == s[|s| - 1 - i]
  {
    seq(|s|, i requires 0 <= i < |s| => s[|s| - 1 - i])
  }

  /** The digits in the order in which the first loop writes them. */
  function LowFirst(n: nat, radix: nat): string
    requires Radix(radix)
    decreases n
  {
    if n == 0 then [] else [Digit(Rem(n, radix))] + LowFirst(Quot(n, radix), radix)
  }

  lemma {:induction false} LowFirstReversed(n: nat, radix: nat)
    requires Radix(radix) && n > 0
    ensures Reversed(LowFirst(n, radix)) == Text(n, radix)
    decreases n
  {
    hide Quot, Rem;
    QuotRem(n, radix);
    var q, digit := Quot(n, radix), Digit(Rem(n, radix));
    var rest := LowFirst(q, radix);
    assert LowFirst(n, radix) == [digit] + rest;
    assert Reversed([digit] + rest) == Reversed(rest) + [digit];
    if q > 0 {
      LowFirstReversed(q, radix);
    } else {
      assert Reversed(rest) == [];
    }
  }

  /** Swaps from both ends towards the middle of str[lo..hi]. */
  method ReverseInPlace(str: array<char>, lo: nat, hi: nat)
    requires lo <= hi <= str.Length
    modifies str
    ensures str[lo..hi] == Reversed(old(str[lo..hi]))
    ensures str[..lo] == old(str[..lo]) && str[hi..] == old(str[hi..])
  {
    hide Reversed;
    ghost var was := str[..];
    var head, p := lo, hi - 1;
    while head < p
      invariant lo <= head <= p + 1 <= hi && head - lo == hi - 1 - p
      invariant forall i :: lo <= i < head ==> str[i] == was[lo + hi - 1 - i]
      invariant forall i :: p < i < hi ==> str[i] == was[lo + hi - 1 - i]
      invariant forall i :: 0 <= i < lo || head <= i <= p || hi <= i < str.Length ==> str[i] == was[i]
    {
      str[head], str[p] := str[p], str[head];
      head, p := head + 1, p - 1;
    }
    assert forall i :: lo <= i < hi ==> str[..][i] == was[lo + hi - 1 - i];
    MirroredRange(str[..], was, lo, hi);
  }

  lemma MirroredRange(now: string, was: string, lo: nat, hi: nat)
    requires lo <= hi <= |now| == |was|
    requires forall i :: lo <= i < hi ==> now[i] == was[lo + hi - 1 - i]
    requires forall i :: 0 <= i < lo || hi <= i < |now| ==> now[i] == was[i]
    ensures now[lo..hi] == Reversed(was[lo..hi]) && now[..lo] == was[..lo] && now[hi..] == was[hi..]
  {
    var part := was[lo..hi];
    forall k | 0 <= k < hi - lo
      ensures now[lo..hi][k] == Reversed(part)[k]
    {
      assert now[lo..hi][k] == now[lo + k] == was[lo + (hi - lo - 1 - k)] == part[hi - lo - 1 - k];
    }
  }

  /** Writes the digits of n > 0 from str[from] on, least significant first; returns the end. */
  method WriteDigits(n: nat, str: array<char>, from: nat, radix: nat) returns (p: nat)
    requires Radix(radix) && from + |LowFirst(n, radix)| < str.Length
    modifies str
    ensures p == from + |LowFirst(n, radix)| && str[from..p] == LowFirst(n, radix)
    ensures str[..from] == old(str[..from]) && str[p..] == old(str[p..])
  {
    hide Quot, Rem, Digit;
    p := from;
    var m := n;
    while m != 0
      invariant from <= p && p + |LowFirst(m, radix)| == from + |LowFirst(n, radix)|
      invariant str[from..p] + LowFirst(m, radix) == LowFirst(n, radix)
      invariant forall i :: 0 <= i < from || p <= i < str.Length ==> str[i] == old(str[i])
      decreases m
    {
      ghost var done := str[from..p];
      ghost var rest := LowFirst(Quot(m, radix), radix);
      assert LowFirst(m, radix) == [Digit(Rem(m, radix))] + rest;
      str[p] := Digit(Rem(m, radix));
      assert str[from..p + 1] == done + [Digit(Rem(m, radix))];
      assert (done + [Digit(Rem(m, radix))]) + rest == done + ([Digit(Rem(m, radix))] + rest);
      m, p := Quot(m, radix), p + 1;
    }
  }

  predicate Accepts(n: int, radix: int) {
    Radix(radix) && (radix == 10 || n >= 0)
  }

  /** itoa: rejected inputs leave the buffer alone; otherwise it holds the text and a terminator. */
  method Itoa(n: int, str: array<char>, radix: int)
    requires INT_MIN < n <= INT_MAX
    requires Accepts(n, radix) ==> |SignedText(n, radix)| < str.Length
    modifies str
    ensures !(2 <= radix <= 36 && (radix == 10 || n >= 0)) ==> str[..] == old(str[..])
    ensures 2 <= radix <= 36 && (radix == 10 || n >= 0) ==> Accepts(n, radix)
    ensures Accepts(n, radix) ==>
      var len := |SignedText(n, radix)|;
      str[..len] == SignedText(n, radix) && str[len] == NUL && str[len + 1..] == old(str[len + 1..])
  {
    if radix < 2 || radix > 36 {
      return;
    }
    if radix != 10 && n < 0 {
      return;
    }
    if n == 0 {
      str[0], str[1] := '0', NUL;
      assert str[..1] == "0";
      return;
    }
    WriteNonzero(n, str, radix);
  }

  /** The text of m > 0 from str[head] on: the digits are written backwards, then turned round. */
  method WriteText(m: nat, str: array<char>, head: nat, radix: nat)
    requires Radix(radix) && m > 0 && head + |Text(m, radix)| < str.Length
    modifies str
    ensures var p := head + |Text(m, radix)|;
            str[head..p] == Text(m, radix) && str[p] == NUL &&
            str[..head] == old(str[..head]) && str[p + 1..] == old(str[p + 1..])
  {
    LowFirstReversed(m, radix);
    hide LowFirst, Text, Digit;
    var p := WriteDigits(m, str, head, radix);
    str[p] := NUL;
    ghost var tail := str[p..];
    assert str[head..p] == LowFirst(m, radix);
    ReverseInPlace(str, head, p);
    assert str[p] == tail[0] && str[p + 1..] == tail[1..];
  }

  /** A negative number has its sign in front. */
  method WriteNonzero(n: int, str: array<char>, radix: int)
    requires INT_MIN < n <= INT_MAX && n != 0 && Accepts(n, radix) && |SignedText(n, radix)| < str.Length
    modifies str
    ensures var len := |SignedText(n, radix)|;
            str[..len] == SignedText(n, radix) && str[len] == NUL && str[len + 1..] == old(str[len + 1..])
  {
    hide Text;
    var head, m: nat := 0, if n < 0 then -n else n;
    if n < 0 {
      str[0] := '-';
      head := 1;
    }
    WriteText(m, str, head, radix);
    ghost var p := head + |Text(m, radix)|;
    assert str[..p] == str[..head] + str[head..p];
    assert n < 0 ==> str[..head] == "-";
  }
}

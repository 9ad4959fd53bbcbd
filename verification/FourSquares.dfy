/** The two searches for representations as a sum of four squares: the pruned one equals the plain one. */
module FourSquares {

  datatype Quad = Quad(a: nat, b: nat, c: nat, d: nat)

  ghost predicate Solution(n: nat, q: Quad) {
    q.a >= q.b >= q.c >= q.d && q.a * q.a + q.b * q.b + q.c * q.c + q.d * q.d == n
  }

  /** Lexicographic order. */
  predicate Before(p: Quad, q: Quad) {
    || p.a < q.a
    || (p.a == q.a && p.b < q.b)
    || (p.a == q.a && p.b == q.b && p.c < q.c)
    || (p.a == q.a && p.b == q.b && p.c == q.c && p.d < q.d)
  }

  ghost predicate Ascending(r: seq<Quad>) {
    forall i, j :: 0 <= i < j < |r| ==> Before(r[i], r[j])
  }

  /** Every solution exactly once, in lexicographic order. */
  ghost predicate Lists(n: nat, r: seq<Quad>) {
    && Ascending(r)
    && forall q :: q in r <==> Solution(n, q)
  }

  /** The listing of the solutions that come before a given point. */
  ghost predicate ListsBelow(n: nat, r: seq<Quad>, at: Quad) {
    && Ascending(r)
    && forall q :: q in r <==> Solution(n, q) && Before(q, at)
  }

  /** There is only one listing. */
  lemma {:induction false} ListingUnique(n: nat, r: seq<Quad>, s: seq<Quad>)
    requires Lists(n, r) && Lists(n, s)
    ensures r == s
  {
    AscendingUnique(r, s);
  }

  lemma {:induction false} AscendingUnique(r: seq<Quad>, s: seq<Quad>)
    requires Ascending(r) && Ascending(s)
    requires forall q :: q in r <==> q in s
    ensures r == s
  {
    assert (r != [] ==> r[0] in r) && (s != [] ==> s[0] in s);
    if r != [] && s != [] {
      var m, k := |r| - 1, |s| - 1;
      LastIsGreatest(r, s);
      LastIsGreatest(s, r);
      assert r[m] == s[k];
      forall q
        ensures q in r[..m] <==> q in s[..k]
      {
        ButLast(r, q);
        ButLast(s, q);
      }
      AscendingUnique(r[..m], s[..k]);
      assert r == r[..m] + [r[m]] && s == s[..k] + [s[k]];
    }
  }

  lemma LastIsGreatest(r: seq<Quad>, s: seq<Quad>)
    requires Ascending(r) && r != [] && s != [] && s[|s| - 1] in r
    ensures r[|r| - 1] == s[|s| - 1] || Before(s[|s| - 1], r[|r| - 1])
  {
    var i :| 0 <= i < |r| && r[i] == s[|s| - 1];
  }

  lemma ButLast(r: seq<Quad>, q: Quad)
    requires Ascending(r) && r != []
    ensures q in r[..|r| - 1] <==> q in r && q != r[|r| - 1]
  {
    if q in r && q != r[|r| - 1] {
      var i :| 0 <= i < |r| && r[i] == q;
      assert r[..|r| - 1][i] == q;
    }
  }

  // ----- squares -----

  lemma SquareMonotone(x: nat, y: nat)
    requires x <= y
    ensures x * x <= y * y
  {
  }

  /** The exact integer square root, int(math.sqrt(m)). */
  function Isqrt(m: nat): (r: nat)
    ensures r * r <= m < (r + 1) * (r + 1)
  {
    IsqrtFrom(m, 0)
  }

  function IsqrtFrom(m: nat, r: nat): (s: nat)
    requires r * r <= m
    ensures s * s <= m < (s + 1) * (s + 1)
    decreases m - r
  {
    if m < (r + 1) * (r + 1) then r else IsqrtFrom(m, r + 1)
  }

  /** A number is at most the root exactly when its square is at most the number. */
  lemma IsqrtBounds(x: nat, m: nat)
    ensures x <= Isqrt(m) <==> x * x <= m
  {
    var r := Isqrt(m);
    if x <= r {
      SquareMonotone(x, r);
    } else {
      SquareMonotone(r + 1, x);
    }
  }

  function MinNat(x: nat, y: nat): nat { if x <= y then x else y }

  // ----- moving the point of the listing -----

  /** Appending the solution at the point itself. */
  lemma AppendAt(n: nat, r: seq<Quad>, at: Quad, next: Quad)
    requires ListsBelow(n, r, at)
    requires forall q :: Before(q, next) <==> Before(q, at) || q == at
    ensures Solution(n, at) ==> ListsBelow(n, r + [at], next)
    ensures !Solution(n, at) ==> ListsBelow(n, r, next)
  {
    if Solution(n, at) {
      var r' := r + [at];
      forall i, j | 0 <= i < j < |r'|
        ensures Before(r'[i], r'[j])
      {
        if j == |r| {
          assert r[i] in r;
        }
      }
    }
  }

  /** Moving over points where nothing is. */
  lemma SkipTo(n: nat, r: seq<Quad>, at: Quad, next: Quad)
    requires ListsBelow(n, r, at)
    requires forall q :: Solution(n, q) ==> (Before(q, at) <==> Before(q, next))
    ensures ListsBelow(n, r, next)
  {
  }

  // ----- the plain search -----

  method Plain(n: nat) returns (results: seq<Quad>)
    ensures Lists(n, results)
  {
    results := [];
    for a := 0 to Isqrt(n) + 1
      invariant ListsBelow(n, results, Quad(a, 0, 0, 0))
    {
      for b := 0 to a + 1
        invariant ListsBelow(n, results, Quad(a, b, 0, 0))
      {
        for c := 0 to b + 1
          invariant ListsBelow(n, results, Quad(a, b, c, 0))
        {
          for d := 0 to c + 1
            invariant ListsBelow(n, results, Quad(a, b, c, d))
          {
            AppendAt(n, results, Quad(a, b, c, d), Quad(a, b, c, d + 1));
            if a * a + b * b + c * c + d * d == n {
              results := results + [Quad(a, b, c, d)];
            }
          }
          SkipTo(n, results, Quad(a, b, c, c + 1), Quad(a, b, c + 1, 0));
        }
        SkipTo(n, results, Quad(a, b, b + 1, 0), Quad(a, b + 1, 0, 0));
      }
      SkipTo(n, results, Quad(a, a + 1, 0, 0), Quad(a + 1, 0, 0, 0));
    }
    AllAreBelow(n, Isqrt(n) + 1);
  }

  lemma AllAreBelow(n: nat, a: nat)
    requires a > Isqrt(n)
    ensures forall q :: Solution(n, q) ==> Before(q, Quad(a, 0, 0, 0))
  {
    forall q | Solution(n, q)
      ensures q.a < a
    {
      IsqrtBounds(q.a, n);
    }
  }

  // ----- the pruned search -----

  /** The next coordinate of a solution is bounded by the previous one and by the root of what is left. */
  function Limit(prev: nat, left: nat): nat { MinNat(prev, Isqrt(left)) }

  lemma LimitKeepsAll(prev: nat, left: nat, x: nat)
    ensures x <= Limit(prev, left) <==> x <= prev && x * x <= left
  {
    IsqrtBounds(x, left);
  }

  method Pruned(n: nat) returns (results: seq<Quad>)
    ensures Lists(n, results)
  {
    results := [];
    for a := 0 to Isqrt(n) + 1
      invariant ListsBelow(n, results, Quad(a, 0, 0, 0))
    {
      IsqrtBounds(a, n);
      results := PrunedB(n, results, a);
    }
    AllAreBelow(n, Isqrt(n) + 1);
  }

  method PrunedB(n: nat, before: seq<Quad>, a: nat) returns (results: seq<Quad>)
    requires a * a <= n && ListsBelow(n, before, Quad(a, 0, 0, 0))
    ensures ListsBelow(n, results, Quad(a + 1, 0, 0, 0))
  {
    results := before;
    var left := n - a * a;
    for b := 0 to Limit(a, left) + 1
      invariant ListsBelow(n, results, Quad(a, b, 0, 0))
    {
      LimitKeepsAll(a, left, b);
      results := PrunedC(n, results, a, b);
    }
    forall q | Solution(n, q) && q.a == a
      ensures q.b <= Limit(a, left)
    {
      LimitKeepsAll(a, left, q.b);
    }
    SkipTo(n, results, Quad(a, Limit(a, left) + 1, 0, 0), Quad(a + 1, 0, 0, 0));
  }

  method PrunedC(n: nat, before: seq<Quad>, a: nat, b: nat) returns (results: seq<Quad>)
    requires b <= a && a * a + b * b <= n && ListsBelow(n, before, Quad(a, b, 0, 0))
    ensures ListsBelow(n, results, Quad(a, b + 1, 0, 0))
  {
    results := before;
    var left := n - a * a - b * b;
    for c := 0 to Limit(b, left) + 1
      invariant ListsBelow(n, results, Quad(a, b, c, 0))
    {
      LimitKeepsAll(b, left, c);
      results := PrunedD(n, results, a, b, c);
    }
    forall q | Solution(n, q) && q.a == a && q.b == b
      ensures q.c <= Limit(b, left)
    {
      LimitKeepsAll(b, left, q.c);
    }
    SkipTo(n, results, Quad(a, b, Limit(b, left) + 1, 0), Quad(a, b + 1, 0, 0));
  }

  method PrunedD(n: nat, before: seq<Quad>, a: nat, b: nat, c: nat) returns (results: seq<Quad>)
    requires c <= b <= a && a * a + b * b + c * c <= n && ListsBelow(n, before, Quad(a, b, c, 0))
    ensures ListsBelow(n, results, Quad(a, b, c + 1, 0))
  {
    results := before;
    var left := n - a * a - b * b - c * c;
    for d := 0 to Limit(c, left) + 1
      invariant ListsBelow(n, results, Quad(a, b, c, d))
    {
      LimitKeepsAll(c, left, d);
      AppendAt(n, results, Quad(a, b, c, d), Quad(a, b, c, d + 1));
      if a * a + b * b + c * c + d * d == n {
        results := results + [Quad(a, b, c, d)];
      }
    }
    forall q | Solution(n, q) && q.a == a && q.b == b && q.c == c
      ensures q.d <= Limit(c, left)
    {
      LimitKeepsAll(c, left, q.d);
    }
    SkipTo(n, results, Quad(a, b, c, Limit(c, left) + 1), Quad(a, b, c + 1, 0));
  }

  /** For every number the two searches return the same sequence. */
  method Compare(n: nat) returns (plain: seq<Quad>, pruned: seq<Quad>)
    ensures plain == pruned && Lists(n, plain)
  {
    plain := Plain(n);
    pruned := Pruned(n);
    ListingUnique(n, plain, pruned);
  }
}

/** Types and small facts shared by the models. */
module Common {

  datatype Option<+T> = None | Some(value: T)

  /** The bytes that the drivers move around. */
  newtype Byte = x: int | 0 <= x < 256

  function Min(a: int, b: int): (m: int)
    ensures m <= a && m <= b && (m == a || m == b)
  {
    if a <= b then a else b
  }

  // ----- text -----

  predicate IsDigit(c: char) { '0' <= c <= '9' }

  predicate StartsDigit(s: string) { s != [] && IsDigit(s[0]) }

  lemma ConcatAssoc<T>(a: seq<T>, b: seq<T>, c: seq<T>)
    ensures (a + b) + c == a + (b + c)
  {
  }

  // ----- division -----

  lemma DivModLaw(x: nat, d: nat)
    requires d > 0
    ensures x == x / d * d + x % d
  {
  }

  lemma MulMonotone(a: nat, b: nat, c: nat)
    requires a <= b
    ensures a * c <= b * c
  {
  }

  lemma QuotientUnique(x: nat, d: nat, k: nat, r: nat)
    requires d > 0 && r < d && x == k * d + r
    ensures x / d == k && x % d == r
  {
    DivModLaw(x, d);
    var k' := x / d;
    if k' < k {
      MulMonotone(k' + 1, k, d);
    } else if k' > k {
      MulMonotone(k + 1, k', d);
    }
  }

  // ----- sets of processes in a given place -----

  ghost function Those<K(!new), Pc(!new)>(pcs: map<K, Pc>, f: Pc -> bool): set<K> {
    set p | p in pcs && f(pcs[p])
  }

  lemma ThoseAfterMove<K(!new), Pc(!new)>(pcs: map<K, Pc>, f: Pc -> bool, p: K, pc: Pc)
    requires p in pcs
    ensures |Those(pcs[p := pc], f)|
            == |Those(pcs, f)| - (if f(pcs[p]) then 1 else 0) + (if f(pc) then 1 else 0)
  {
    var before, after := Those(pcs, f), Those(pcs[p := pc], f);
    if f(pc) {
      assert after == (before - {p}) + {p};
    } else {
      assert after == before - {p};
    }
  }
}

/** Division and remainder by a variable, as repeated subtraction, for loop
    invariants. */
module DivMod {
  ghost function Quot(x: nat, d: nat): nat
    requires d > 0
  {
    if x < d then 0 else 1 + Quot(x - d, d)
  }

  ghost function Rem(x: nat, d: nat): (r: nat)
    requires d > 0
    ensures r < d
  {
    if x < d then x else Rem(x - d, d)
  }

  lemma {:induction false} QuotRem(x: nat, d: nat)
    requires d > 0
    ensures x == Quot(x, d) * d + Rem(x, d)
  {
    if x >= d {
      QuotRem(x - d, d);
      var q := Quot(x - d, d);
      assert (1 + q) * d == d + q * d;
    }
  }

  lemma Unique(q: int, r: int, p: int, s: int, d: nat)
    requires q * d + r == p * d + s && 0 <= r < d && 0 <= s < d
    ensures q == p && r == s
  {
    assert (q - p) * d == s - r;
    Multiple(q - p, d);
  }

  lemma Multiple(k: int, d: nat)
    ensures k >= 1 ==> k * d >= d
    ensures k <= -1 ==> k * d <= -(d as int)
  {
    if k >= 1 {
      assert k * d == d + (k - 1) * d;
    } else if k <= -1 {
      assert k * d == -(d as int) + (k + 1) * d;
    }
  }

  lemma IsDivMod(x: nat, d: nat)
    requires d > 0
    ensures Quot(x, d) == x / d
    ensures Rem(x, d) == x % d
  {
    QuotRem(x, d);
    Unique(Quot(x, d), Rem(x, d), x / d, x % d, d);
  }

  lemma {:induction false} RemStep(x: nat, d: nat)
    requires d > 0
    ensures Rem(x + 1, d) == if Rem(x, d) == d - 1 then 0 else Rem(x, d) + 1
  {
    if x >= d {
      RemStep(x - d, d);
    }
  }
}

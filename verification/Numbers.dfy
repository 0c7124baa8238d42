/** What several modules say about numbers. */
module Numbers {
  /** One more than the largest 32-bit number. */
  const WRAP: int := 0x1_0000_0000

  function Min(a: nat, b: nat): nat { if a < b then a else b }

  lemma Mono(a: nat, b: nat, s: nat)
    requires a <= b
    ensures a * s <= b * s
  {
  }

  lemma DivParts(a: nat, b: nat)
    requires b > 0
    ensures a == (a / b) * b + a % b && 0 <= a % b < b
  {
  }

  lemma QuotientUnique(b: nat, q: nat, r: nat, p: nat, s: nat)
    requires r < b && s < b && q * b + r == p * b + s
    ensures r == s
  {
    if q < p { Mono(q + 1, p, b); }
    if p < q { Mono(p + 1, q, b); }
  }

  lemma ModStep(a: nat, b: nat)
    requires 1 <= b <= a
    ensures a % b == (a - b) % b
  {
    DivParts(a - b, b);
    DivParts(a, b);
    QuotientUnique(b, (a - b) / b + 1, (a - b) % b, a / b, a % b);
  }

  /** More numbers than values: two are equal. */
  lemma {:induction false} Pigeons(s: seq<nat>, n: nat) returns (i: nat, j: nat)
    requires |s| > n && forall k :: 0 <= k < |s| ==> s[k] < n
    ensures i < j < |s| && s[i] == s[j]
    decreases n
  {
    var last := |s| - 1;
    if k :| 0 <= k < last && s[k] == s[last] {
      i, j := k, last;
    } else {
      // the largest value, n - 1, is replaced by the last element
      var t: seq<nat> := seq(last, k requires 0 <= k < last => if s[k] == n - 1 then s[last] else s[k]);
      i, j := Pigeons(t, n - 1);
    }
  }
}

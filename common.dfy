/** Helpers shared by the whole model: an Option type, prefix sums over the
    per-shell satellite counts, and Python's integer `|` on unbounded,
    possibly negative integers (two's complement, as Python defines it). */
module Common {

  datatype Option<+T> = None | Some(value: T) {
    /** Python's `d.get(key, default)` once the lookup has produced an Option. */
    function GetOr(default: T): T
    {
      match this
      case Some(v) => v
      case None => default
    }
  }

  /** Sum of the first `k` entries of `s` (Python's `sum(s[:k])`). */
  function Prefix(s: seq<nat>, k: nat): nat
    requires k <= |s|
  {
    if k == 0 then 0 else Prefix(s, k - 1) + s[k - 1]
  }

  /** Sum of every entry of `s` (Python's `sum(s)`). */
  function Total(s: seq<nat>): nat
  {
    Prefix(s, |s|)
  }

  lemma {:induction false} PrefixMonotone(s: seq<nat>, j: nat, k: nat)
    requires j <= k <= |s|
    ensures Prefix(s, j) <= Prefix(s, k)
    decreases k - j
  {
    if j < k {
      PrefixMonotone(s, j, k - 1);
    }
  }

  /** The satellites of shell `k` occupy the global indices
      `Prefix(s, k) .. Prefix(s, k + 1) - 1`, and these ranges tile `0 .. Total(s) - 1`. */
  lemma {:induction false} PrefixBelowTotal(s: seq<nat>, k: nat)
    requires k < |s|
    ensures Prefix(s, k) + s[k] <= Total(s)
  {
    PrefixMonotone(s, k + 1, |s|);
  }

  lemma MulMonotone(a: nat, b: nat, c: nat)
    requires a <= b
    ensures a * c <= b * c
  {
  }

  lemma MulSucc(a: nat, b: nat)
    ensures (a + 1) * b == a * b + b
  {
  }

  lemma MulCancel(a: nat, b: nat, n: nat)
    requires a * n < b * n
    ensures a < b
  {
    if a >= b {
      MulMonotone(b, a, n);
    }
  }

  /** `q * n + r` with `r < n` divides into quotient `q` and remainder `r`. */
  lemma DivModOf(q: nat, r: nat, n: nat)
    requires r < n
    ensures (q * n + r) / n == q && (q * n + r) % n == r
  {
    var a := q * n + r;
    var q' := a / n;
    assert q' * n + a % n == a;
    assert (q + 1) * n == q * n + n;
    assert (q' + 1) * n == q' * n + n;
    MulCancel(q', q + 1, n);
    MulCancel(q, q' + 1, n);
  }

  /** Number of significant bits Python's `|` has to look at before both
      operands become 0 or -1 (the all-zero and all-one bit strings). */
  function Size(a: int): nat
  {
    if a >= 0 then a else -a - 1
  }

  lemma HalfSize(a: int)
    ensures Size(a / 2) == Size(a) / 2
  {
  }

  /** Python's `a | b` on unbounded integers: bitwise or of the infinite
      two's-complement bit strings. */
  function Or(a: int, b: int): int
    decreases Size(a) + Size(b)
  {
    if Size(a) == 0 && Size(b) == 0 then
      (if a == -1 || b == -1 then -1 else 0)
    else
      HalfSize(a);
      HalfSize(b);
      2 * Or(a / 2, b / 2) + (if a % 2 == 1 || b % 2 == 1 then 1 else 0)
  }

  lemma {:induction false} OrZero(a: int)
    ensures Or(a, 0) == a && Or(0, a) == a
    decreases Size(a)
  {
    if Size(a) != 0 {
      HalfSize(a);
      OrZero(a / 2);
    }
  }

  /** Or-ing a number whose low six bits are clear with a value below 64 is
      addition: the bit fields do not overlap. */
  lemma {:induction false} OrLowBits(a: int, x: int, k: nat)
    requires 0 <= x < Pow2(k)
    ensures Or(a * Pow2(k), x) == a * Pow2(k) + x
    decreases k
  {
    if k == 0 {
      OrZero(a);
    } else {
      var hi := a * Pow2(k);
      assert hi == 2 * (a * Pow2(k - 1));
      assert hi / 2 == a * Pow2(k - 1) && hi % 2 == 0;
      if Size(hi) == 0 && Size(x) == 0 {
        assert hi == 0 && x == 0;
      } else {
        HalfSize(hi);
        HalfSize(x);
        OrLowBits(a, x / 2, k - 1);
        assert Or(hi, x) == 2 * Or(hi / 2, x / 2) + (if x % 2 == 1 then 1 else 0);
      }
    }
  }

  function Pow2(k: nat): (r: nat)
    ensures r >= 1
  {
    if k == 0 then 1 else 2 * Pow2(k - 1)
  }
}

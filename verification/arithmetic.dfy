/** The width of `unsigned`, and rounded-up division for counting batches. */
module Arithmetic {

  const WORD: nat := 0x1_0000_0000

  /** What `unsigned` arithmetic keeps of a number. */
  function Wrap(n: int): nat {
    n % WORD
  }

  lemma WrapMultiple(n: int, k: int)
    ensures Wrap(n + WORD * k) == Wrap(n)
  {
  }

  /** Sums may be wrapped as they grow. */
  lemma WrapSum(a: int, b: int)
    ensures Wrap(Wrap(a) + b) == Wrap(a + b)
  {
    assert a + b == Wrap(a) + b + WORD * (a / WORD);
    WrapMultiple(Wrap(a) + b, a / WORD);
  }

  function Max0(n: int): nat {
    if n > 0 then n else 0
  }

  function CeilDiv(a: nat, b: nat): nat
    requires b > 0
  {
    (a + b - 1) / b
  }

  lemma Distribute(x: int, y: int, b: int)
    ensures (x - y) * b == x * b - y * b
  {
  }

  lemma AtLeastOnce(x: int, b: nat)
    requires x >= 1
    ensures x * b >= b
  {
    assert x * b == b + (x - 1) * b;
  }

  lemma QuotientUnique(n: nat, b: nat, k: nat)
    requires b > 0 && k * b <= n < k * b + b
    ensures n / b == k
  {
    var q := n / b;
    assert q * b <= n < q * b + b;
    if q < k {
      Distribute(k, q, b);
      AtLeastOnce(k - q, b);
    } else if k < q {
      Distribute(q, k, b);
      AtLeastOnce(q - k, b);
    }
  }

  lemma CeilDivUnique(a: nat, b: nat, k: nat)
    requires b > 0 && a <= k * b && (k > 0 ==> (k - 1) * b < a)
    ensures CeilDiv(a, b) == k
  {
    Distribute(k, 1, b);
    QuotientUnique(a + b - 1, b, k);
  }

  lemma CeilDivBounds(a: nat, b: nat)
    requires b > 0
    ensures a <= CeilDiv(a, b) * b
    ensures CeilDiv(a, b) > 0 ==> (CeilDiv(a, b) - 1) * b < a
  {
    var k := CeilDiv(a, b);
    assert k * b <= a + b - 1 < k * b + b;
    Distribute(k, 1, b);
  }
}

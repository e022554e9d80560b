/**
 Digit sequences, least significant digit first, as kaprekar.cxx keeps them in its vectors.
 All numbers here are unbounded; KaprekarRoutine adds the 32-bit arithmetic of the code.
 */
module Digits {
  import opened Sequences

  predicate IsDigits(v: seq<nat>) {
    forall i :: 0 <= i < |v| ==> v[i] < 10
  }

  function BreakNum(n: nat): seq<nat> {
    if n == 0 then [] else [n % 10] + BreakNum(n / 10)
  }

  function MakeNum(v: seq<nat>): nat {
    if v == [] then 0 else v[0] + 10 * MakeNum(v[1..])
  }

  function Pow10(n: nat): nat
    ensures Pow10(n) > 0
  {
    if n == 0 then 1 else 10 * Pow10(n - 1)
  }

  // ---------------------------------------------------------------- the codec

  /** No zero in the most significant position. */
  predicate Canonical(v: seq<nat>) {
    IsDigits(v) && (v != [] ==> v[|v| - 1] != 0)
  }

  lemma {:induction false} MakeAfterBreak(n: nat)
    ensures MakeNum(BreakNum(n)) == n && Canonical(BreakNum(n))
    ensures n > 0 ==> BreakNum(n) != []
  {
    if n > 0 {
      MakeAfterBreak(n / 10);
      assert BreakNum(n)[1..] == BreakNum(n / 10);
    }
  }

  lemma {:induction false} BreakAfterMake(v: seq<nat>)
    requires Canonical(v)
    ensures BreakNum(MakeNum(v)) == v
    ensures v != [] ==> MakeNum(v) > 0
  {
    if v != [] {
      var t := v[1..];
      assert Canonical(t) by {
        assert t != [] ==> t[|t| - 1] == v[|v| - 1];
      }
      BreakAfterMake(t);
      assert MakeNum(v) % 10 == v[0] && MakeNum(v) / 10 == MakeNum(t);
      assert t == [] ==> v[0] != 0;
      assert v == [v[0]] + t;
    }
  }

  lemma {:induction false} MakeBound(v: seq<nat>)
    requires IsDigits(v)
    ensures MakeNum(v) < Pow10(|v|)
  {
    if v != [] {
      MakeBound(v[1..]);
    }
  }

  lemma TenTimes(p: nat, x: nat)
    ensures 10 * (p * x) == (10 * p) * x
  {
  }

  lemma OneMoreDigit(d: nat, low: nat, p: nat, high: nat, number: nat)
    requires number == low + p * high
    ensures d + 10 * number == (d + 10 * low) + (10 * p) * high
  {
    TenTimes(p, high);
  }

  lemma {:induction false} MakeConcat(a: seq<nat>, b: seq<nat>)
    ensures MakeNum(a + b) == MakeNum(a) + Pow10(|a|) * MakeNum(b)
  {
    if a == [] {
      assert a + b == b;
    } else {
      assert (a + b)[1..] == a[1..] + b;
      MakeConcat(a[1..], b);
      OneMoreDigit(a[0], MakeNum(a[1..]), Pow10(|a| - 1), MakeNum(b), MakeNum(a[1..] + b));
    }
  }

  /** A number's digit count is what the decimal bounds say. */
  lemma {:induction false} DigitCount(n: nat, k: nat)
    requires k > 0
    ensures |BreakNum(n)| == k <==> Pow10(k - 1) <= n < Pow10(k)
    decreases k
  {
    if k == 1 {
      assert n >= 10 ==> BreakNum(n / 10) != [];
    } else {
      DigitCount(n / 10, k - 1);
      assert Pow10(k - 1) == 10 * Pow10(k - 2) && Pow10(k) == 10 * Pow10(k - 1);
      assert n > 0 ==> |BreakNum(n)| == 1 + |BreakNum(n / 10)|;
    }
  }

  lemma {:induction false} Pow10Grows(a: nat, b: nat)
    requires a <= b
    ensures Pow10(a) <= Pow10(b)
  {
    if a < b {
      Pow10Grows(a, b - 1);
    }
  }

  lemma {:induction false} DigitCountBelow(n: nat, k: nat)
    ensures |BreakNum(n)| <= k <==> n < Pow10(k)
    decreases k
  {
    if k > 0 {
      DigitCountBelow(n / 10, k - 1);
    }
  }

  // ---------------------------------------------------------------- sorting

  function InsertDesc(d: nat, s: seq<nat>): seq<nat> {
    if s == [] || d >= s[0] then [d] + s else [s[0]] + InsertDesc(d, s[1..])
  }

  /** What `std::sort` with `greater<int>` leaves in the vector: SortDescIsTheSort says there is no other answer. */
  function SortDesc(s: seq<nat>): seq<nat> {
    if s == [] then [] else InsertDesc(s[0], SortDesc(s[1..]))
  }

  predicate Descending(s: seq<nat>) {
    forall i :: 0 < i < |s| ==> s[i - 1] >= s[i]
  }

  lemma {:induction false} DescendingAny(s: seq<nat>, i: nat, j: nat)
    requires Descending(s) && i <= j < |s|
    ensures s[i] >= s[j]
  {
    if i < j {
      DescendingAny(s, i, j - 1);
    }
  }

  predicate Permutation(a: seq<nat>, b: seq<nat>) {
    multiset(a) == multiset(b)
  }

  lemma {:induction false} InsertDescSorts(d: nat, s: seq<nat>)
    requires Descending(s)
    ensures Descending(InsertDesc(d, s))
    ensures multiset(InsertDesc(d, s)) == multiset{d} + multiset(s)
  {
    if s == [] || d >= s[0] {
    } else {
      var t := InsertDesc(d, s[1..]);
      InsertDescSorts(d, s[1..]);
      assert s == [s[0]] + s[1..];
      assert t[0] == d || t[0] == s[1];
    }
  }

  lemma {:induction false} SortDescSorts(s: seq<nat>)
    ensures Descending(SortDesc(s)) && Permutation(SortDesc(s), s)
    ensures |SortDesc(s)| == |s|
  {
    if s != [] {
      SortDescSorts(s[1..]);
      InsertDescSorts(s[0], SortDesc(s[1..]));
      assert s == [s[0]] + s[1..];
    }
    assert |multiset(SortDesc(s))| == |multiset(s)|;
  }

  lemma FirstIsLargest(s: seq<nat>, x: nat)
    requires Descending(s) && x in s
    ensures x <= s[0]
  {
    var i :| 0 <= i < |s| && s[i] == x;
    DescendingAny(s, 0, i);
  }

  lemma RestOfPermutation(a: seq<nat>, b: seq<nat>)
    requires Permutation(a, b) && a != [] && b != [] && a[0] == b[0]
    ensures Permutation(a[1..], b[1..])
  {
    assert a == [a[0]] + a[1..] && b == [b[0]] + b[1..];
    assert multiset(a[1..]) == multiset(a) - multiset{a[0]};
    assert multiset(b[1..]) == multiset(b) - multiset{b[0]};
  }

  lemma SameFirst(a: seq<nat>, b: seq<nat>)
    requires Descending(a) && Descending(b) && Permutation(a, b) && a != []
    ensures b != [] && a[0] == b[0]
  {
    assert a[0] in multiset(b);
    FirstIsLargest(b, a[0]);
    assert b[0] in multiset(a);
    FirstIsLargest(a, b[0]);
  }

  /** Sorting is determined by the digits' multiset. */
  lemma {:induction false} SortDescIsTheSort(a: seq<nat>, b: seq<nat>)
    requires Descending(a) && Descending(b) && Permutation(a, b)
    ensures a == b
  {
    if a != [] {
      SameFirst(a, b);
      RestOfPermutation(a, b);
      SortDescIsTheSort(a[1..], b[1..]);
      assert a == [a[0]] + a[1..] && b == [b[0]] + b[1..];
    } else {
      assert |multiset(b)| == |multiset(a)|;
    }
  }

  lemma {:induction false} ReverseIsPermutation(s: seq<nat>)
    ensures Permutation(Reverse(s), s)
  {
    if s != [] {
      ReverseIsPermutation(s[1..]);
      assert Reverse(s) == Reverse(s[1..]) + [s[0]];
      assert s == [s[0]] + s[1..];
    }
  }

  // ---------------------------------------------------------------- extremality

  function Asc(v: seq<nat>): nat { MakeNum(SortDesc(v)) }

  function Dsc(v: seq<nat>): nat { MakeNum(Reverse(SortDesc(v))) }

  lemma {:induction false} InsertDescLowers(d: nat, s: seq<nat>)
    ensures MakeNum(InsertDesc(d, s)) <= d + 10 * MakeNum(s)
  {
    if s == [] || d >= s[0] {
      assert ([d] + s)[1..] == s;
    } else {
      InsertDescLowers(d, s[1..]);
      assert InsertDesc(d, s)[1..] == InsertDesc(d, s[1..]);
    }
  }

  lemma {:induction false} SortDescLowers(v: seq<nat>)
    ensures Asc(v) <= MakeNum(v)
  {
    if v != [] {
      SortDescLowers(v[1..]);
      InsertDescLowers(v[0], SortDesc(v[1..]));
    }
  }

  /** Appending at the significant end of a reversed sequence is inserting at the other end. */
  lemma {:induction false} ReverseInsertRaises(d: nat, s: seq<nat>)
    ensures |InsertDesc(d, s)| == |s| + 1
    ensures MakeNum(Reverse(InsertDesc(d, s))) >= MakeNum(Reverse(s) + [d])
  {
    if s == [] || d >= s[0] {
      assert Reverse([d] + s) == Reverse(s) + [d];
    } else {
      var t := s[1..];
      ReverseInsertRaises(d, t);
      var low := Reverse(t);
      assert Reverse(InsertDesc(d, s)) == Reverse(InsertDesc(d, t)) + [s[0]];
      assert Reverse(s) + [d] == low + [s[0], d];
      MakeConcat(Reverse(InsertDesc(d, t)), [s[0]]);
      MakeConcat(low, [d]);
      MakeConcat(low, [s[0], d]);
      var p := Pow10(|t|);
      assert Pow10(|t| + 1) == 10 * p;
      assert [s[0], d][1..] == [d];
      assert MakeNum([d]) == d && MakeNum([s[0]]) == s[0];
      assert MakeNum([s[0], d]) == s[0] + 10 * d;
      calc {
        MakeNum(Reverse(InsertDesc(d, s)));
        MakeNum(Reverse(InsertDesc(d, t))) + (10 * p) * s[0];
      >=
        MakeNum(low) + p * d + (10 * p) * s[0];
      >= { Exchange(p, d, s[0]); }
        MakeNum(low) + p * (s[0] + 10 * d);
        MakeNum(Reverse(s) + [d]);
      }
    }
  }

  lemma Exchange(p: nat, d: nat, e: nat)
    requires d <= e
    ensures p * d + (10 * p) * e >= p * (e + 10 * d)
  {
    assert p * d + (10 * p) * e - p * (e + 10 * d) == 9 * (p * (e - d));
  }

  lemma {:induction false} ReverseSortRaises(v: seq<nat>)
    ensures |SortDesc(v)| == |v|
    ensures Dsc(v) >= MakeNum(Reverse(v))
  {
    if v != [] {
      var t := v[1..];
      ReverseSortRaises(t);
      ReverseInsertRaises(v[0], SortDesc(t));
      assert Reverse(v) == Reverse(t) + [v[0]];
      MakeConcat(Reverse(t), [v[0]]);
      MakeConcat(Reverse(SortDesc(t)), [v[0]]);
    }
  }

  lemma SortDescOfPermutation(v: seq<nat>, p: seq<nat>)
    requires Permutation(p, v)
    ensures SortDesc(p) == SortDesc(v)
  {
    SortDescSorts(v);
    SortDescSorts(p);
    SortDescIsTheSort(SortDesc(v), SortDesc(p));
  }

  lemma AscLeast(v: seq<nat>, p: seq<nat>)
    requires Permutation(p, v)
    ensures Asc(v) <= MakeNum(p)
  {
    SortDescOfPermutation(v, p);
    SortDescLowers(p);
  }

  lemma ReverseTwice(s: seq<nat>)
    ensures Reverse(Reverse(s)) == s
  {
  }

  lemma DscGreatest(v: seq<nat>, p: seq<nat>)
    requires Permutation(p, v)
    ensures MakeNum(p) <= Dsc(v)
  {
    ReverseIsPermutation(p);
    SortDescOfPermutation(v, Reverse(p));
    ReverseSortRaises(Reverse(p));
    ReverseTwice(p);
  }

  /** `ascNum` and `dscNum` are the smallest and the largest number any arrangement of the digits makes. */
  lemma Extremal(v: seq<nat>, p: seq<nat>)
    requires Permutation(p, v)
    ensures Asc(v) <= MakeNum(p) <= Dsc(v)
  {
    AscLeast(v, p);
    DscGreatest(v, p);
  }

  /** Both extremes are attained: they are made by arrangements of the digits. */
  lemma ExtremesAttained(v: seq<nat>)
    ensures Permutation(SortDesc(v), v) && Permutation(Reverse(SortDesc(v)), v)
  {
    SortDescSorts(v);
    ReverseIsPermutation(SortDesc(v));
  }

  // ---------------------------------------------------------------- digit counts of the difference

  predicate AllEqual(v: seq<nat>) {
    forall i :: 0 < i < |v| ==> v[i - 1] == v[i]
  }

  lemma {:induction false} AllEqualFirst(v: seq<nat>, i: nat)
    requires AllEqual(v) && i < |v|
    ensures v[i] == v[0]
  {
    if i > 0 {
      AllEqualFirst(v, i - 1);
    }
  }

  lemma NotAllEqualSpread(v: seq<nat>)
    requires !AllEqual(v)
    ensures var s := SortDesc(v);
            |s| == |v| >= 2 && s[0] > s[|s| - 1]
  {
    SortDescSorts(v);
    var s := SortDesc(v);
    var i :| 0 < i < |v| && v[i - 1] != v[i];
    assert v[i - 1] in multiset(s) && v[i] in multiset(s);
    var a :| 0 <= a < |s| && s[a] == v[i - 1];
    var b :| 0 <= b < |s| && s[b] == v[i];
    DescendingAny(s, 0, a);
    DescendingAny(s, 0, b);
    DescendingAny(s, a, |s| - 1);
    DescendingAny(s, b, |s| - 1);
  }

  /** The outermost digits apart from the rest. */
  lemma OuterDigits(first: nat, mid: seq<nat>, last: nat)
    ensures MakeNum([first] + mid + [last]) == first + 10 * MakeNum(mid) + Pow10(|mid| + 1) * last
  {
    var tail := mid + [last];
    assert [first] + mid + [last] == [first] + tail;
    assert ([first] + tail)[1..] == tail;
    MakeConcat(mid, [last]);
    assert MakeNum([last]) == last;
    TenTimes(Pow10(|mid|), last);
  }

  lemma ProductOfDifferences(p: int, d: int)
    ensures (p - 1) * (d - 1) == p * d - p - d + 1
  {
  }

  lemma ProductNotNegative(x: nat, y: nat)
    ensures x * y >= 0
  {
  }

  lemma ProductOfSum(p: nat, x: nat, d: nat)
    ensures p * (x + d) == p * x + p * d
  {
  }

  /** The outermost digits alone already give the difference its size. */
  lemma OuterDifference(p: nat, first: nat, last: nat)
    requires p > 0 && first > last
    ensures p * first + last - (p * last + first) >= p - 1
  {
    var d := first - last;
    ProductOfSum(p, last, d);
    ProductOfDifferences(p, d);
    ProductNotNegative(p - 1, d - 1);
  }

  lemma SortedMiddle(s: seq<nat>)
    requires Descending(s) && |s| >= 2
    ensures var mid := s[1..|s| - 1];
            MakeNum(mid) <= MakeNum(Reverse(mid))
  {
    var mid := s[1..|s| - 1];
    SortOfSorted(mid);
    Extremal(mid, mid);
  }

  lemma DifferenceFromParts(p: nat, first: nat, last: nat, mid: nat, reversed: nat, asc: nat, dsc: nat)
    requires p > 0 && first > last && mid <= reversed
    requires asc == first + 10 * mid + p * last && dsc == last + 10 * reversed + p * first
    ensures dsc - asc >= p - 1
  {
    OuterDifference(p, first, last);
  }

  lemma Ends(s: seq<nat>) returns (first: nat, mid: seq<nat>, last: nat)
    requires |s| >= 2
    ensures first == s[0] && mid == s[1..|s| - 1] && last == s[|s| - 1]
    ensures s == [first] + mid + [last] && Reverse(s) == [last] + Reverse(mid) + [first]
  {
    first, mid, last := s[0], s[1..|s| - 1], s[|s| - 1];
  }

  lemma DifferenceAtLeast(s: seq<nat>)
    requires Descending(s) && |s| >= 2 && s[0] > s[|s| - 1]
    ensures MakeNum(Reverse(s)) - MakeNum(s) >= Pow10(|s| - 1) - 1
  {
    var first, mid, last := Ends(s);
    OuterDigits(first, mid, last);
    OuterDigits(last, Reverse(mid), first);
    SortedMiddle(s);
    DifferenceFromParts(Pow10(|mid| + 1), first, last, MakeNum(mid), MakeNum(Reverse(mid)), MakeNum(s),
                        MakeNum(Reverse(s)));
  }

  /** The difference of n digits that are not all equal has n digits, or is one short of that. */
  lemma DifferenceBounds(v: seq<nat>)
    requires IsDigits(v) && !AllEqual(v)
    ensures |v| >= 2
    ensures Pow10(|v| - 1) - 1 <= Dsc(v) - Asc(v) < Pow10(|v|)
  {
    NotAllEqualSpread(v);
    SortDescSorts(v);
    var s := SortDesc(v);
    DifferenceAtLeast(s);
    ReverseIsPermutation(s);
    PermutationDigits(v, Reverse(s));
    MakeBound(Reverse(s));
  }

  lemma SortOfSorted(s: seq<nat>)
    requires Descending(s)
    ensures SortDesc(s) == s
  {
    SortDescSorts(s);
    SortDescIsTheSort(SortDesc(s), s);
  }

  lemma PermutationDigits(a: seq<nat>, b: seq<nat>)
    requires IsDigits(a) && Permutation(a, b)
    ensures IsDigits(b) && |a| == |b|
  {
    assert |multiset(a)| == |multiset(b)|;
    forall i | 0 <= i < |b| ensures b[i] < 10 {
      assert b[i] in multiset(a);
    }
  }

  // ---------------------------------------------------------------- congruence modulo nine

  function DigitSum(v: seq<nat>): nat {
    if v == [] then 0 else v[0] + DigitSum(v[1..])
  }

  lemma ModNineStep(d: nat, m: int, n: int)
    requires m % 9 == n % 9
    ensures (d + 10 * m) % 9 == (d + n) % 9
  {
    var k := m / 9 - n / 9;
    assert m - n == 9 * k;
    assert d + 10 * m == (d + n) + 9 * (m + k);
    RemainderOfMultiple(d + n, m + k);
  }

  lemma RemainderOfMultiple(x: int, k: int)
    ensures (x + 9 * k) % 9 == x % 9
  {
  }

  lemma {:induction false} MakeModNine(v: seq<nat>)
    ensures MakeNum(v) % 9 == DigitSum(v) % 9
  {
    if v != [] {
      MakeModNine(v[1..]);
      ModNineStep(v[0], MakeNum(v[1..]), DigitSum(v[1..]));
    }
  }

  lemma {:induction false} DigitSumConcat(a: seq<nat>, b: seq<nat>)
    ensures DigitSum(a + b) == DigitSum(a) + DigitSum(b)
  {
    if a == [] {
      assert a + b == b;
    } else {
      assert (a + b)[1..] == a[1..] + b;
      DigitSumConcat(a[1..], b);
    }
  }

  lemma {:induction false} DigitSumPermutation(a: seq<nat>, b: seq<nat>)
    requires Permutation(a, b)
    ensures DigitSum(a) == DigitSum(b)
  {
    assert |multiset(a)| == |multiset(b)|;
    if a != [] {
      assert a[0] in multiset(b);
      var k :| 0 <= k < |b| && b[k] == a[0];
      var front := [b[k]] + (b[..k] + b[k + 1..]);
      assert b == b[..k] + [b[k]] + b[k + 1..];
      assert Permutation(front, b);
      RestOfPermutation(a, front);
      assert front[1..] == b[..k] + b[k + 1..];
      DigitSumPermutation(a[1..], front[1..]);
      DigitSumConcat(b[..k], b[k + 1..]);
      DigitSumConcat(b[..k] + [b[k]], b[k + 1..]);
      DigitSumConcat(b[..k], [b[k]]);
    }
  }

  /** Rearranging the digits, or padding them with zeros, keeps the number modulo nine. */
  lemma ModNineInvariant(a: seq<nat>, b: seq<nat>, zeros: nat)
    requires Permutation(a + seq(zeros, _ => 0), b)
    ensures MakeNum(a) % 9 == MakeNum(b) % 9
  {
    var z := seq(zeros, _ => 0);
    ZerosSum(zeros);
    DigitSumConcat(a, z);
    DigitSumPermutation(a + z, b);
    MakeModNine(a);
    MakeModNine(b);
  }

  lemma {:induction false} ZerosSum(n: nat)
    ensures DigitSum(seq(n, _ => 0)) == 0
  {
    if n > 0 {
      ZerosSum(n - 1);
      assert seq(n, _ => 0)[1..] == seq(n - 1, _ => 0);
    }
  }
}

/**
 Where the runs end that do not return: which of them take the equal-digits exit and which go on for ever.
 The digits of a difference come in pairs from both ends, and that is what keeps them from being (nearly) equal.
 */
module KaprekarEndings {
  import opened Digits
  import opened Kaprekar
  import opened Sequences

  // ---------------------------------------------------------------- the difference, pair by pair

  /** Greatest minus least number of a descending sequence of digits. */
  function Difference(s: seq<nat>): int {
    MakeNum(Reverse(s)) - MakeNum(s)
  }

  function Middle(s: seq<nat>): seq<nat>
    requires |s| >= 2
  {
    s[1..|s| - 1]
  }

  function Gap(s: seq<nat>): int
    requires |s| >= 2
  {
    s[0] as int - s[|s| - 1]
  }

  /** What the outermost pair adds to a difference. */
  function PairValue(gap: int, p: nat): int {
    gap * (p - 1)
  }

  lemma PairWeight(p: nat, first: nat, last: nat, gap: int, mid: nat, reversed: nat, asc: nat, dsc: nat)
    requires asc == first + 10 * mid + p * last && dsc == last + 10 * reversed + p * first && gap == first - last
    ensures dsc - asc == PairValue(gap, p) + 10 * (reversed - mid)
  {
    assert p * first - p * last == p * (first - last);
  }

  lemma AscParts(s: seq<nat>, first: nat, mid: seq<nat>, last: nat, p: nat)
    requires s == [first] + mid + [last] && p == Pow10(|mid| + 1)
    ensures MakeNum(s) == first + 10 * MakeNum(mid) + p * last
  {
    OuterDigits(first, mid, last);
  }

  lemma DscParts(s: seq<nat>, first: nat, mid: seq<nat>, last: nat, p: nat)
    requires s == [first] + mid + [last] && p == Pow10(|mid| + 1)
    ensures MakeNum(Reverse(s)) == last + 10 * MakeNum(Reverse(mid)) + p * first
  {
    var f, m, l := Ends(s);
    assert m == mid;
    OuterDigits(last, Reverse(mid), first);
  }

  /** Peeling off the outermost pair. */
  lemma DifferenceStep(s: seq<nat>, first: nat, mid: seq<nat>, last: nat, gap: int, p: nat)
    requires s == [first] + mid + [last] && gap == first - last && p == Pow10(|mid| + 1)
    ensures Difference(s) == PairValue(gap, p) + 10 * Difference(mid)
  {
    AscParts(s, first, mid, last, p);
    DscParts(s, first, mid, last, p);
    PairWeight(p, first, last, gap, MakeNum(mid), MakeNum(Reverse(mid)), MakeNum(s), MakeNum(Reverse(s)));
  }

  lemma MiddleBetween(s: seq<nat>)
    requires |s| >= 2
    ensures s == [s[0]] + Middle(s) + [s[|s| - 1]]
  {
  }

  lemma EqualEnds(s: seq<nat>)
    requires Descending(s) && s != [] && s[0] == s[|s| - 1]
    ensures AllEqual(s)
  {
    forall i | 0 < i < |s| ensures s[i - 1] == s[i] {
      DescendingAny(s, 0, i - 1);
      DescendingAny(s, i - 1, i);
      DescendingAny(s, i, |s| - 1);
    }
  }

  lemma {:induction false} NoDifference(s: seq<nat>)
    requires AllEqual(s)
    ensures Difference(s) == 0
  {
    assert Reverse(s) == s by {
      forall i | 0 <= i < |s| ensures Reverse(s)[i] == s[i] {
        AllEqualFirst(s, i);
        AllEqualFirst(s, |s| - 1 - i);
      }
    }
  }

  function Nines(n: nat): seq<nat> {
    seq(n, _ => 9)
  }

  lemma {:induction false} NinesMake(n: nat)
    ensures MakeNum(Nines(n)) == Pow10(n) - 1
  {
    if n > 0 {
      NinesMake(n - 1);
      assert Nines(n)[1..] == Nines(n - 1);
    }
  }

  // ---------------------------------------------------------------- the digits of the difference

  /** Descending digits that are not all equal. */
  predicate Spread(s: seq<nat>) {
    Descending(s) && IsDigits(s) && |s| >= 2 && s[0] > s[|s| - 1]
  }

  lemma MiddleSpread(s: seq<nat>)
    requires Spread(s)
    ensures Descending(Middle(s)) && IsDigits(Middle(s))
    ensures !AllEqual(Middle(s)) ==> Spread(Middle(s))
  {
    var mid := Middle(s);
    if !AllEqual(mid) {
      var i :| 0 < i < |mid| && mid[i - 1] != mid[i];
      DescendingAny(mid, 0, |mid| - 1);
      if mid[0] == mid[|mid| - 1] {
        EqualEnds(mid);
      }
    }
  }

  /** The digits of the difference less one: a pair outside, and inside it the same again or only nines. */
  function Lowered(s: seq<nat>): (r: seq<nat>)
    requires Spread(s)
    ensures |r| == |s|
  {
    MiddleSpread(s);
    if AllEqual(Middle(s)) then [9 - Gap(s)] + Nines(|s| - 2) + [Gap(s) - 1]
    else [9 - Gap(s)] + Lowered(Middle(s)) + [Gap(s)]
  }

  lemma DifferencePeeled(s: seq<nat>, mid: seq<nat>, gap: int, q: nat)
    requires |s| >= 2 && mid == Middle(s) && gap == Gap(s) && q == Pow10(|mid| + 1)
    ensures Difference(s) == PairValue(gap, q) + 10 * Difference(mid)
  {
    var first, m, last := Ends(s);
    DifferenceStep(s, first, m, last, gap, q);
  }

  /** A pair around nines ... */
  lemma FlatMakes(gap: nat, outer: nat, last: nat, k: nat, q: nat)
    requires outer + gap == 9 && last + 1 == gap && q == Pow10(k + 1)
    ensures IsDigits([outer] + Nines(k) + [last])
    ensures MakeNum([outer] + Nines(k) + [last]) == PairValue(gap, q) - 1
  {
    NinesMake(k);
    OuterDigits(outer, Nines(k), last);
    FlatPair(Pow10(k), gap, q, outer, last, MakeNum(Nines(k)), MakeNum([outer] + Nines(k) + [last]));
  }

  lemma FlatPair(p: nat, gap: nat, q: nat, outer: nat, last: nat, inner: nat, number: nat)
    requires outer + gap == 9 && last + 1 == gap && q == 10 * p && inner == p - 1
    requires number == outer + 10 * inner + q * last
    ensures number == PairValue(gap, q) - 1
  {
    assert q * last == q * gap - q;
  }

  /** ... and a pair around the digits of an inner difference less one. */
  lemma NestedMakes(gap: nat, outer: nat, inner: seq<nat>, d: int, q: nat)
    requires outer + gap == 9 && MakeNum(inner) == d - 1 && q == Pow10(|inner| + 1)
    ensures MakeNum([outer] + inner + [gap]) == PairValue(gap, q) + 10 * d - 1
  {
    OuterDigits(outer, inner, gap);
    NestedPair(q, gap, outer, d, MakeNum(inner), MakeNum([outer] + inner + [gap]));
  }

  lemma NestedPair(q: nat, gap: nat, outer: nat, d: int, inner: nat, number: nat)
    requires outer + gap == 9 && inner == d - 1 && number == outer + 10 * inner + q * gap
    ensures number == PairValue(gap, q) + 10 * d - 1
  {
  }

  lemma NestedDigits(gap: nat, outer: nat, inner: seq<nat>)
    requires outer + gap == 9 && IsDigits(inner)
    ensures IsDigits([outer] + inner + [gap])
  {
  }

  lemma LoweredFlat(s: seq<nat>, gap: nat, k: nat)
    requires Spread(s) && AllEqual(Middle(s)) && gap == Gap(s) && k == |s| - 2
    ensures 1 <= gap <= 9 && Lowered(s) == [9 - gap] + Nines(k) + [gap - 1]
  {
  }

  lemma LoweredNested(s: seq<nat>, gap: nat, mid: seq<nat>)
    requires Spread(s) && mid == Middle(s) && !AllEqual(mid) && Spread(mid) && gap == Gap(s)
    ensures 1 <= gap <= 9 && Lowered(s) == [9 - gap] + Lowered(mid) + [gap]
  {
  }

  lemma {:induction false} LoweredMakes(s: seq<nat>)
    requires Spread(s)
    ensures IsDigits(Lowered(s)) && MakeNum(Lowered(s)) == Difference(s) - 1
  {
    var mid, gap, q := Middle(s), Gap(s), Pow10(|s| - 1);
    DifferencePeeled(s, mid, gap, q);
    if AllEqual(mid) {
      LoweredFlat(s, gap, |s| - 2);
      NoDifference(mid);
      FlatMakes(gap, 9 - gap, gap - 1, |s| - 2, q);
    } else {
      MiddleSpread(s);
      LoweredNested(s, gap, mid);
      LoweredMakes(mid);
      NestedMakes(gap, 9 - gap, Lowered(mid), Difference(mid), q);
      NestedDigits(gap, 9 - gap, Lowered(mid));
    }
  }

  /** The digits of the difference: only the last one is one higher. */
  function Raised(s: seq<nat>): seq<nat>
    requires Spread(s)
  {
    Lowered(s)[0 := 10 - Gap(s)]
  }

  lemma RaisedMakes(s: seq<nat>)
    requires Spread(s)
    ensures IsDigits(Raised(s)) && |Raised(s)| == |s| && MakeNum(Raised(s)) == Difference(s)
  {
    LoweredMakes(s);
    assert Raised(s)[1..] == Lowered(s)[1..];
  }

  lemma AroundMiddle(x: nat, inner: seq<nat>, y: nat)
    ensures var v := [x] + inner + [y];
            && |v| == |inner| + 2 && v[0] == x && v[|v| - 1] == y
            && forall i :: 0 <= i < |inner| ==> v[i + 1] == inner[i]
  {
  }

  /** Two digits that add up to eight. */
  predicate AddUpToEight(v: seq<nat>, a: nat, b: nat) {
    a < b < |v| && v[a] + v[b] == 8
  }

  lemma OutermostPair(gap: nat, k: nat)
    requires 1 <= gap <= 9
    ensures AddUpToEight([9 - gap] + Nines(k) + [gap - 1], 0, k + 1)
  {
    AroundMiddle(9 - gap, Nines(k), gap - 1);
  }

  lemma InnerPairOfEight(x: nat, inner: seq<nat>, y: nat, a: nat, b: nat)
    requires AddUpToEight(inner, a, b)
    ensures AddUpToEight([x] + inner + [y], a + 1, b + 1)
  {
    AroundMiddle(x, inner, y);
  }

  /** Somewhere two of the digits add up to eight. */
  lemma {:induction false} PairOfEight(s: seq<nat>) returns (a: nat, b: nat)
    requires Spread(s)
    ensures AddUpToEight(Lowered(s), a, b)
  {
    var mid, gap := Middle(s), Gap(s);
    if AllEqual(mid) {
      a, b := 0, |s| - 1;
      LoweredFlat(s, gap, |s| - 2);
      OutermostPair(gap, |s| - 2);
    } else {
      MiddleSpread(s);
      LoweredNested(s, gap, mid);
      var c, d := PairOfEight(mid);
      a, b := c + 1, d + 1;
      InnerPairOfEight(9 - gap, Lowered(mid), gap, c, d);
    }
  }

  // ---------------------------------------------------------------- nearly equal digits

  /** All digits but one are c, and that one is one more or one less. */
  predicate OffByOne(v: seq<nat>, c: nat, d: nat) {
    multiset(v)[c] == |v| - 1 && d in v && (d == c + 1 || d + 1 == c)
  }

  ghost predicate NearlyEqual(v: seq<nat>) {
    exists c: nat, d: nat :: OffByOne(v, c, d)
  }

  lemma {:induction false} CountAtMost(v: seq<nat>, c: nat)
    ensures multiset(v)[c] <= |v|
  {
    if v != [] {
      assert v == [v[0]] + v[1..];
      CountAtMost(v[1..], c);
    }
  }

  /** Of two digits one is c, if all but one are. */
  lemma OneOfTwo(v: seq<nat>, c: nat, i: nat, j: nat)
    requires multiset(v)[c] >= |v| - 1 && i < j < |v|
    ensures v[i] == c || v[j] == c
  {
    var x, y, z := v[..i], v[i + 1..j], v[j + 1..];
    assert v == x + [v[i]] + y + [v[j]] + z;
    CountAtMost(x, c);
    CountAtMost(y, c);
    CountAtMost(z, c);
  }

  lemma {:induction false} CountEqual(v: seq<nat>, c: nat)
    requires forall i :: 0 <= i < |v| ==> v[i] == c
    ensures multiset(v)[c] == |v|
  {
    if v != [] {
      assert v == [v[0]] + v[1..];
      CountEqual(v[1..], c);
    }
  }

  /** The digit that is off is the only one that is not c. */
  lemma OnlyOneOff(v: seq<nat>, c: nat, d: nat) returns (p: nat)
    requires OffByOne(v, c, d)
    ensures p < |v| && v[p] == d && forall i :: 0 <= i < |v| && i != p ==> v[i] == c
  {
    p :| 0 <= p < |v| && v[p] == d;
    forall i | 0 <= i < |v| && i != p ensures v[i] == c {
      if i < p {
        OneOfTwo(v, c, i, p);
      } else {
        OneOfTwo(v, c, p, i);
      }
    }
  }

  /** Four different places of nearly equal digits: at most one of them is off, and by one. */
  lemma FourPlaces(v: seq<nat>, c: nat, d: nat, i: nat, j: nat, a: nat, b: nat)
    requires OffByOne(v, c, d) && i < |v| && j < |v| && a < |v| && b < |v| && i != j && a != b
    requires i != a && i != b && j != a && j != b
    ensures v[i] + v[j] <= v[a] + v[b] + 1
  {
    var p := OnlyOneOff(v, c, d);
  }

  lemma EqualPlaces(v: seq<nat>, i: nat, j: nat)
    requires AllEqual(v) && i < |v| && j < |v|
    ensures v[i] == v[j]
  {
    AllEqualFirst(v, i);
    AllEqualFirst(v, j);
  }

  /** Pairs that add up to ten and to eight keep the digits from being equal or nearly so. */
  lemma PairsDiffer(v: seq<nat>, a: nat, b: nat)
    requires 0 < a < b < |v| - 1
    requires v[0] + v[|v| - 1] == 10 && AddUpToEight(v, a, b)
    ensures !AllEqual(v) && !NearlyEqual(v)
  {
    if AllEqual(v) {
      EqualPlaces(v, 0, a);
      EqualPlaces(v, |v| - 1, b);
    } else if NearlyEqual(v) {
      var c, d :| OffByOne(v, c, d);
      FourPlaces(v, c, d, 0, |v| - 1, a, b);
    }
  }

  /** Nines between two smaller digits do the same. */
  lemma NinesDiffer(v: seq<nat>)
    requires |v| >= 5 && v[0] < 9 && v[|v| - 1] < 9 && v[1] == 9 && v[2] == 9
    ensures !AllEqual(v) && !NearlyEqual(v)
  {
    if AllEqual(v) {
      EqualPlaces(v, 0, 1);
    } else if NearlyEqual(v) {
      var c, d :| OffByOne(v, c, d);
      FourPlaces(v, c, d, 1, 2, 0, |v| - 1);
    }
  }

  /** The difference is all nines, one digit short. */
  predicate Collapses(s: seq<nat>)
    requires |s| >= 2
  {
    AllEqual(Middle(s)) && Gap(s) == 1
  }

  /** Otherwise it has all its digits, and they are neither equal nor nearly so. */
  lemma RaisedDiffers(s: seq<nat>)
    requires Spread(s) && |s| >= 5 && !Collapses(s)
    ensures Raised(s)[|s| - 1] > 0 && !AllEqual(Raised(s)) && !NearlyEqual(Raised(s))
  {
    if AllEqual(Middle(s)) {
      RaisedFlatDiffers(s, Gap(s), |s| - 2);
    } else {
      RaisedNestedDiffers(s, Gap(s), Middle(s));
    }
  }

  lemma RaisedFlatDiffers(s: seq<nat>, gap: nat, k: nat)
    requires Spread(s) && AllEqual(Middle(s)) && gap == Gap(s) && gap != 1 && k == |s| - 2 && k >= 3
    ensures Raised(s)[k + 1] > 0 && !AllEqual(Raised(s)) && !NearlyEqual(Raised(s))
  {
    LoweredFlat(s, gap, k);
    FlatDiffers(Raised(s), 9 - gap, Nines(k), gap - 1);
  }

  lemma RaisedNestedDiffers(s: seq<nat>, gap: nat, mid: seq<nat>)
    requires Spread(s) && mid == Middle(s) && !AllEqual(mid) && gap == Gap(s)
    ensures Raised(s)[|mid| + 1] > 0 && !AllEqual(Raised(s)) && !NearlyEqual(Raised(s))
  {
    MiddleSpread(s);
    LoweredNested(s, gap, mid);
    var a, b := PairOfEight(mid);
    NestedDiffers(Raised(s), gap, 9 - gap, Lowered(mid), a, b);
  }

  lemma FlatDiffers(v: seq<nat>, outer: nat, nines: seq<nat>, last: nat)
    requires |nines| >= 3 && nines == Nines(|nines|) && outer + last == 8 && last > 0
    requires v == ([outer] + nines + [last])[0 := outer + 1]
    ensures v[|v| - 1] > 0 && !AllEqual(v) && !NearlyEqual(v)
  {
    AroundMiddle(outer, nines, last);
    NinesDiffer(v);
  }

  lemma NestedDiffers(v: seq<nat>, gap: nat, outer: nat, inner: seq<nat>, a: nat, b: nat)
    requires outer + gap == 9 && gap > 0 && AddUpToEight(inner, a, b)
    requires v == ([outer] + inner + [gap])[0 := outer + 1]
    ensures v[|v| - 1] > 0 && !AllEqual(v) && !NearlyEqual(v)
  {
    AroundMiddle(outer, inner, gap);
    PairsDiffer(v, a + 1, b + 1);
  }

  /** The collapse happens exactly for nearly equal digits. */
  lemma CollapseMeansNearlyEqual(v: seq<nat>)
    requires |v| >= 3 && !AllEqual(v)
    ensures |SortDesc(v)| == |v|
    ensures Collapses(SortDesc(v)) <==> NearlyEqual(v)
  {
    SortDescSorts(v);
    NotAllEqualSpread(v);
    var s := SortDesc(v);
    if Collapses(s) {
      CollapsedOffByOne(s);
      var c, d :| OffByOne(s, c, d);
      assert d in multiset(v);
      assert OffByOne(v, c, d);
    }
    if NearlyEqual(v) {
      var c, d :| OffByOne(v, c, d);
      assert d in multiset(s);
      OffByOneCollapses(s, c, d);
    }
  }

  lemma CollapsedOffByOne(s: seq<nat>)
    requires Descending(s) && |s| >= 3 && Collapses(s)
    ensures NearlyEqual(s)
  {
    var first, mid, last := Ends(s);
    var c := mid[0];
    forall i | 0 <= i < |mid| ensures mid[i] == c {
      AllEqualFirst(mid, i);
    }
    CountEqual(mid, c);
    DescendingAny(s, 0, 1);
    DescendingAny(s, 1, |s| - 1);
    assert c == s[1];
    if c == first {
      assert OffByOne(s, c, last);
    } else {
      assert OffByOne(s, c, first);
    }
  }

  lemma OffByOneCollapses(s: seq<nat>, c: nat, d: nat)
    requires Descending(s) && |s| >= 3 && OffByOne(s, c, d)
    ensures Collapses(s)
  {
    var p := OnlyOneOff(s, c, d);
    DescendingAny(s, 0, p);
    DescendingAny(s, p, |s| - 1);
    assert p == 0 || p == |s| - 1;
  }

  // ---------------------------------------------------------------- five digits and more

  /** Inputs of five digits and more that neither are nor become a row of equal digits. */
  ghost predicate Endless(n: nat) {
    n >= 10000 && !AllEqual(BreakNum(n)) && !NearlyEqual(BreakNum(n))
  }

  lemma LongNumber(n: nat)
    requires n >= 10000
    ensures |BreakNum(n)| >= 5 && Padded(n) == BreakNum(n) && IsDigits(BreakNum(n))
  {
    DigitCountBelow(n, 4);
    FourDigits(n);
    FourPlacesEnd();
  }

  lemma SortedSpread(n: nat)
    requires n >= 10000 && !AllEqual(BreakNum(n))
    ensures Spread(SortDesc(BreakNum(n))) && |SortDesc(BreakNum(n))| == |BreakNum(n)| >= 5
    ensures Next(n) == Difference(SortDesc(BreakNum(n)))
  {
    LongNumber(n);
    SortDescSorts(BreakNum(n));
    NotAllEqualSpread(BreakNum(n));
    PermutationDigits(BreakNum(n), SortDesc(BreakNum(n)));
  }

  lemma NoCollapse(n: nat)
    requires Endless(n)
    ensures Spread(SortDesc(BreakNum(n))) && |SortDesc(BreakNum(n))| == |BreakNum(n)| >= 5
    ensures Next(n) == Difference(SortDesc(BreakNum(n))) && !Collapses(SortDesc(BreakNum(n)))
  {
    LongNumber(n);
    SortedSpread(n);
    CollapseMeansNearlyEqual(BreakNum(n));
  }

  lemma RaisedIsEndless(s: seq<nat>, d: nat)
    requires Spread(s) && |s| >= 5 && !Collapses(s) && d == Difference(s)
    ensures Endless(d) && |BreakNum(d)| == |s|
  {
    RaisedMakes(s);
    RaisedDiffers(s);
    BreakAfterMake(Raised(s));
    DigitCountBelow(d, 4);
    FourPlacesEnd();
  }

  lemma FourPlacesEnd()
    ensures Pow10(4) == 10000
  {
    assert Pow10(2) == 100 by { assert Pow10(1) == 10; }
  }

  /** What goes on for ever keeps its number of digits. */
  lemma EndlessStep(n: nat)
    requires Endless(n)
    ensures !Stuck(n) && n != KAPREKAR && Endless(Next(n)) && |BreakNum(Next(n))| == |BreakNum(n)|
  {
    LongNumber(n);
    NoCollapse(n);
    RaisedIsEndless(SortDesc(BreakNum(n)), Next(n));
  }

  /** A collapsed difference is a row of nines. */
  lemma CollapsedNines(s: seq<nat>, k: nat)
    requires |s| >= 5 && Collapses(s) && k == |s| - 1
    ensures Difference(s) == MakeNum(Nines(k)) == Pow10(k) - 1
  {
    DifferencePeeled(s, Middle(s), Gap(s), Pow10(k));
    NoDifference(Middle(s));
    NinesMake(k);
  }

  lemma NinesAreEqual(k: nat, n: nat)
    requires k >= 4 && n == MakeNum(Nines(k))
    ensures Stuck(n)
  {
    BreakAfterMake(Nines(k));
  }

  /** Nearly equal digits leave a row of nines. */
  lemma NearlyEqualDifference(n: nat, k: nat)
    requires n >= 10000 && !AllEqual(BreakNum(n)) && NearlyEqual(BreakNum(n)) && k == |BreakNum(n)| - 1
    ensures k >= 4 && Next(n) == MakeNum(Nines(k)) == Pow10(k) - 1
  {
    SortedSpread(n);
    CollapseMeansNearlyEqual(BreakNum(n));
    CollapsedNines(SortDesc(BreakNum(n)), k);
  }

  lemma NearlyEqualStep(n: nat)
    requires n >= 10000 && !AllEqual(BreakNum(n)) && NearlyEqual(BreakNum(n))
    ensures !Stuck(n) && n != KAPREKAR && Stuck(Next(n))
  {
    var k := |BreakNum(n)| - 1;
    LongNumber(n);
    NearlyEqualDifference(n, k);
    NinesAreEqual(k, Next(n));
  }

  // ---------------------------------------------------------------- the three endings

  /** The inputs that take the equal-digits exit. */
  ghost predicate Exits(n: nat) {
    || n < 100
    || (1000 <= n <= 9999 && n % 1111 == 0)
    || (n >= 10000 && (AllEqual(BreakNum(n)) || NearlyEqual(BreakNum(n))))
  }

  lemma ExitsSoon(n: nat, fuel: nat)
    requires Exits(n) && fuel >= 5
    ensures Run(n, fuel) == DigitsEqual
  {
    if n < 100 {
      SmallInputsExit(n, fuel);
    } else if n <= 9999 {
      RepDigit(n);
    } else {
      LongNumber(n);
      if !AllEqual(BreakNum(n)) {
        NearlyEqualStep(n);
        var path := LongerTrajectory(Stuck, Next, n, [Next(n)]);
        IterateAlong(Stuck, Next, path, 0, 0, fuel);
      }
    }
  }

  lemma {:induction false} IterateForever(stuck: nat -> bool, next: nat -> nat, inside: iset<nat>, n: nat,
                                          iterations: nat, fuel: nat)
    requires forall m: nat :: m in inside ==> !stuck(m) && m != KAPREKAR && next(m) in inside
    requires n in inside
    ensures Iterate(stuck, next, n, iterations, fuel) == StillRunning
    decreases fuel
  {
    if fuel > 0 {
      IterateForever(stuck, next, inside, next(n), iterations + 1, fuel - 1);
    }
  }

  lemma EndlessRuns(n: nat, fuel: nat)
    requires Endless(n)
    ensures Run(n, fuel) == StillRunning
  {
    var inside := iset m: nat | Endless(m);
    forall m: nat | m in inside ensures !Stuck(m) && m != KAPREKAR && Next(m) in inside {
      EndlessStep(m);
    }
    IterateForever(Stuck, Next, inside, n, 0, fuel);
  }

  lemma EndlessStaysBelow(n: nat)
    requires Endless(n)
    ensures StaysBelow(Next, n, Pow10(|BreakNum(n)|))
  {
    var length := |BreakNum(n)|;
    var inside := iset m: nat | Endless(m) && |BreakNum(m)| == length;
    forall m: nat | m in inside ensures Next(m) in inside {
      EndlessStep(m);
    }
    forall k: nat ensures Steps(Next, n, k) < Pow10(length) {
      StepsInside(Next, inside, n, k);
      DigitCountBelow(Steps(Next, n, k), length);
    }
  }

  /** A run that goes on for ever goes round in a circle: it has only the numbers of the input's length to go to. */
  lemma EndlessRepeats(n: nat) returns (i: nat, period: nat)
    requires Endless(n)
    ensures Repeats(Next, n, i, period) && i + period <= Pow10(|BreakNum(n)|)
  {
    EndlessStaysBelow(n);
    i, period := BoundedRepeats(Next, n, Pow10(|BreakNum(n)|));
  }

  /**
   Every input has one of three endings: the loop returns, takes the equal-digits exit, or goes on for ever; and
   which one it is can be told from the input's digits.
   */
  lemma ThreeEndings(n: nat)
    ensures (exists fuel: nat :: Run(n, fuel).Returned?) <==> Suitable(n)
    ensures (exists fuel: nat :: Run(n, fuel) == DigitsEqual) <==> Exits(n)
    ensures (forall fuel: nat :: Run(n, fuel) == StillRunning) <==> Endless(n)
    ensures Suitable(n) || Exits(n) || Endless(n)
  {
    ExactOutcome(n);
    if Exits(n) {
      ExitsSoon(n, 5);
      assert Run(n, 5) == DigitsEqual;
    } else if Suitable(n) {
      SuitableReturns(n);
      forall fuel: nat ensures Run(n, fuel) != DigitsEqual {
        NeverBoth(n, 7, fuel);
      }
      assert Run(n, 7) != StillRunning;
    } else {
      forall fuel: nat ensures Run(n, fuel) == StillRunning {
        EndlessRuns(n, fuel);
      }
    }
  }

  /** Watching a run for longer does not change how it ended. */
  lemma NeverBoth(n: nat, f: nat, g: nat)
    requires Run(n, f).Returned?
    ensures Run(n, g) != DigitsEqual
  {
    if f <= g {
      IterateSettled(Stuck, Next, n, 0, f, g);
    } else if Run(n, g) == DigitsEqual {
      IterateSettled(Stuck, Next, n, 0, g, f);
    }
  }

  lemma {:induction false} IterateSettled(stuck: nat -> bool, next: nat -> nat, n: nat, iterations: nat, f: nat, g: nat)
    requires !Iterate(stuck, next, n, iterations, f).StillRunning? && f <= g
    ensures Iterate(stuck, next, n, iterations, g) == Iterate(stuck, next, n, iterations, f)
    decreases f
  {
    if !stuck(n) && n != KAPREKAR {
      IterateSettled(stuck, next, next(n), iterations + 1, f - 1, g - 1);
    }
  }
}

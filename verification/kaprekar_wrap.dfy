/**
 Ten-digit inputs, for which the numbers made of the digits do not fit into 32 bits.  The wrapped difference is
 another number than the true one, but it ends the loop in the same way.
 */
module KaprekarWrap {
  import opened Arithmetic
  import opened Digits
  import opened Kaprekar
  import opened KaprekarEndings
  import opened KaprekarRoutine

  // ---------------------------------------------------------------- ten digits

  /** The five gaps of ten descending digits: what the difference depends on. */
  datatype Gaps10 = Gaps10(a: nat, b: nat, c: nat, d: nat, e: nat)
  {
    predicate Valid() {
      9 >= a >= b >= c >= d >= e
    }

    function Value(): nat {
      999_999_999 * a + 99_999_990 * b + 9_999_900 * c + 999_000 * d + 90_000 * e
    }
  }

  lemma SmallPowers()
    ensures Pow10(1) == 10 && Pow10(3) == 1000 && Pow10(5) == 100_000 && Pow10(7) == 10_000_000
    ensures Pow10(9) == 1_000_000_000
  {
    assert Pow10(1) == 10;
  }

  function GapAt(s: seq<nat>, i: nat): int
    requires i < |s|
  {
    s[i] as int - s[|s| - 1 - i]
  }

  lemma FourSorted(s: seq<nat>)
    requires |s| == 4
    ensures Difference(s) == 999 * GapAt(s, 0) + 90 * GapAt(s, 1)
  {
    var t := s[1..3];
    assert Middle(s) == t && Middle(t) == [];
    MiddleBetween(s);
    MiddleBetween(t);
    SmallPowers();
    DifferenceStep(s, s[0], t, s[3], GapAt(s, 0), 1000);
    DifferenceStep(t, s[1], [], s[2], GapAt(s, 1), 10);
    NoDifference([]);
  }

  lemma EightSorted(s: seq<nat>)
    requires |s| == 8
    ensures Difference(s) ==
            9_999_999 * GapAt(s, 0) + 999_990 * GapAt(s, 1) + 99_900 * GapAt(s, 2) + 9000 * GapAt(s, 3)
  {
    var t, u := s[1..7], s[2..6];
    assert Middle(s) == t && t[1..5] == u;
    MiddleBetween(s);
    MiddleBetween(t);
    SmallPowers();
    DifferenceStep(s, s[0], t, s[7], GapAt(s, 0), 10_000_000);
    DifferenceStep(t, s[1], u, s[6], GapAt(s, 1), 100_000);
    FourSorted(u);
  }

  lemma TenSorted(s: seq<nat>)
    requires |s| == 10
    ensures Difference(s) == 999_999_999 * GapAt(s, 0) + 99_999_990 * GapAt(s, 1) + 9_999_900 * GapAt(s, 2)
                             + 999_000 * GapAt(s, 3) + 90_000 * GapAt(s, 4)
  {
    var t := s[1..9];
    assert Middle(s) == t;
    MiddleBetween(s);
    SmallPowers();
    DifferenceStep(s, s[0], t, s[9], GapAt(s, 0), 1_000_000_000);
    EightSorted(t);
  }

  lemma GapsShrink(s: seq<nat>, i: nat, j: nat)
    requires Descending(s) && i <= j < |s| - j
    ensures GapAt(s, i) >= GapAt(s, j) >= 0
  {
    DescendingAny(s, i, j);
    DescendingAny(s, j, |s| - 1 - j);
    DescendingAny(s, |s| - 1 - j, |s| - 1 - i);
  }

  lemma TenDigitDifference(s: seq<nat>) returns (g: Gaps10)
    requires |s| == 10 && Descending(s) && IsDigits(s)
    ensures g.Valid() && Difference(s) == g.Value()
  {
    GapsShrink(s, 0, 1);
    GapsShrink(s, 1, 2);
    GapsShrink(s, 2, 3);
    GapsShrink(s, 3, 4);
    TenSorted(s);
    g := Gaps10(GapAt(s, 0), GapAt(s, 1), GapAt(s, 2), GapAt(s, 3), GapAt(s, 4));
  }

  // ---------------------------------------------------------------- the wrapped difference

  /** Five decimal places, the lowest first. */
  datatype Places = Places(p0: int, p1: int, p2: int, p3: int, p4: int)
  {
    predicate Digits() {
      0 <= p0 < 10 && 0 <= p1 < 10 && 0 <= p2 < 10 && 0 <= p3 < 10 && 0 <= p4 < 10
    }

    function Number(): int {
      p0 + 10 * p1 + 100 * p2 + 1000 * p3 + 10000 * p4
    }

    /** Three of them are equal, as they are when all are, but for at most one. */
    predicate Level() {
      p2 == p3 == p4 || p0 == p1 == p3 || p0 == p1 == p4
    }
  }

  /** Digits, gaps and the low digits of what was lost add up to zeros, place by place, with these carries. */
  predicate AddsUp(g: Gaps10, lost: Places, l: Places, carries: Places) {
    && l.p0 + g.a + lost.p0 == 10 * carries.p0
    && l.p1 + g.b + lost.p1 + carries.p0 == 10 * carries.p1
    && l.p2 + g.c + lost.p2 + carries.p1 == 10 * carries.p2
    && l.p3 + g.d + lost.p3 + carries.p2 == 10 * carries.p3
    && l.p4 + g.e + lost.p4 + carries.p3 == 10 * carries.p4
  }

  /** The low digits of 2^32 and of twice that. */
  const ONCE := Places(6, 9, 2, 7, 6)
  const TWICE := Places(2, 9, 5, 4, 3)

  lemma CarriesSmall(g: Gaps10, lost: Places, l: Places, k: Places)
    requires g.Valid() && l.Digits() && lost.Digits() && AddsUp(g, lost, l, k)
    ensures 0 <= k.p0 <= 2 && 0 <= k.p1 <= 2 && 0 <= k.p2 <= 2 && 0 <= k.p3 <= 2 && 0 <= k.p4 <= 2
  {
  }

  lemma NotLevel234Once(g: Gaps10, l: Places, k: Places)
    requires g.Valid() && l.Digits() && AddsUp(g, ONCE, l, k)
    ensures !(l.p2 == l.p3 == l.p4)
  {
    CarriesSmall(g, ONCE, l, k);
    assert l.p2 == l.p3 ==> k.p2 == k.p3;
    assert l.p2 == l.p3 == l.p4 ==> g.d == g.e + 9;
  }

  lemma NotLevel013Once(g: Gaps10, l: Places, k: Places)
    requires g.Valid() && l.Digits() && AddsUp(g, ONCE, l, k)
    ensures !(l.p0 == l.p1 == l.p3)
  {
    CarriesSmall(g, ONCE, l, k);
    assert l.p0 == l.p1 ==> k.p0 == k.p1;
    assert l.p0 == l.p1 && k.p0 == 1 ==> l.p0 == 0 && g.b == 0;
    assert l.p0 == l.p1 && k.p0 == 2 ==> l.p0 + g.b == 9;
  }

  lemma NotLevel014Once(g: Gaps10, l: Places, k: Places)
    requires g.Valid() && l.Digits() && AddsUp(g, ONCE, l, k)
    ensures !(l.p0 == l.p1 == l.p4)
  {
    CarriesSmall(g, ONCE, l, k);
    assert l.p0 == l.p1 ==> k.p0 == k.p1;
    assert l.p0 == l.p1 && k.p0 == 1 ==> l.p0 == 0 && g.b == 0;
    assert l.p0 == l.p1 && k.p0 == 2 ==> l.p0 + g.b == 9;
  }

  lemma NotLevel234Twice(g: Gaps10, l: Places, k: Places)
    requires g.Valid() && l.Digits() && AddsUp(g, TWICE, l, k)
    ensures !(l.p2 == l.p3 == l.p4)
  {
    CarriesSmall(g, TWICE, l, k);
    assert l.p3 == l.p4 ==> k.p3 == k.p4 || k.p3 == k.p4 + 1;
  }

  lemma NotLevel013Twice(g: Gaps10, l: Places, k: Places)
    requires g.Valid() && l.Digits() && AddsUp(g, TWICE, l, k)
    ensures !(l.p0 == l.p1 == l.p3)
  {
    CarriesSmall(g, TWICE, l, k);
    assert l.p0 == l.p1 ==> k.p0 == k.p1;
    assert l.p0 == l.p1 ==> g.b == 0 && (l.p0 == 0 || l.p0 == 9);
  }

  lemma NotLevel014Twice(g: Gaps10, l: Places, k: Places)
    requires g.Valid() && l.Digits() && AddsUp(g, TWICE, l, k)
    ensures !(l.p0 == l.p1 == l.p4)
  {
    CarriesSmall(g, TWICE, l, k);
    assert l.p0 == l.p1 ==> k.p0 == k.p1;
    assert l.p0 == l.p1 ==> g.b == 0 && (l.p0 == 0 || l.p0 == 9);
  }

  /** And there are five of them at least. */
  lemma NotShort(g: Gaps10, q: nat, r: nat)
    requires g.Valid() && 1 <= q <= 2 && g.Value() == r + q * WORD
    ensures r >= 10000
  {
    var upper := 10000 * g.a + 1000 * g.b + 100 * g.c + 10 * g.d + g.e;
    var lower := g.a + 10 * g.b + 100 * g.c + 1000 * g.d + 10000 * g.e;
    assert g.Value() == 100000 * upper - lower;
    if q == 1 {
      NotShortOnce(g, upper);
    } else {
      NotShortTwice(g, upper);
    }
  }

  lemma NotShortOnce(g: Gaps10, upper: nat)
    requires g.Valid() && upper == 10000 * g.a + 1000 * g.b + 100 * g.c + 10 * g.d + g.e
    ensures upper != 42950
  {
  }

  lemma NotShortTwice(g: Gaps10, upper: nat)
    requires g.Valid() && upper == 10000 * g.a + 1000 * g.b + 100 * g.c + 10 * g.d + g.e
    ensures upper != 85900
  {
  }

  function Lowest(v: seq<nat>): Places
    requires |v| >= 5
  {
    Places(v[0], v[1], v[2], v[3], v[4])
  }

  /** The five low digits of a number, and what is left of it. */
  lemma LowDigits(r: nat) returns (h: nat)
    requires r >= 10000
    ensures var v := BreakNum(r);
            |v| >= 5 && Lowest(v).Digits() && r == Lowest(v).Number() + 100000 * h
  {
    LongNumber(r);
    var v := BreakNum(r);
    MakeAfterBreak(r);
    var t := v[1..];
    var u := t[1..];
    var w := u[1..];
    var x := w[1..];
    h := MakeNum(x[1..]);
    assert r == v[0] + 10 * MakeNum(t);
    assert MakeNum(t) == v[1] + 10 * MakeNum(u);
    assert MakeNum(u) == v[2] + 10 * MakeNum(w);
    assert MakeNum(w) == v[3] + 10 * MakeNum(x);
  }

  lemma LevelDigits(v: seq<nat>)
    requires |v| >= 5 && (AllEqual(v) || NearlyEqual(v))
    ensures Lowest(v).Level()
  {
    if AllEqual(v) {
      EqualPlaces(v, 2, 3);
      EqualPlaces(v, 2, 4);
    } else {
      var c, d :| OffByOne(v, c, d);
      var p := OnlyOneOff(v, c, d);
    }
  }

  lemma NotLevel(g: Gaps10, q: nat, r: nat, l: Places, h: nat)
    requires g.Valid() && 1 <= q <= 2 && g.Value() == r + q * WORD
    requires l.Digits() && r == l.Number() + 100000 * h
    ensures !l.Level()
  {
    var k4 := 10000 * g.a + 1000 * g.b + 100 * g.c + 10 * g.d + g.e - h - if q == 1 then 42949 else 85899;
    var lost := if q == 1 then ONCE else TWICE;
    var k3 := 10 * k4 - l.p4 - g.e - lost.p4;
    var k2 := 10 * k3 - l.p3 - g.d - lost.p3;
    var k1 := 10 * k2 - l.p2 - g.c - lost.p2;
    var k := Places(10 * k1 - l.p1 - g.b - lost.p1, k1, k2, k3, k4);
    assert AddsUp(g, lost, l, k);
    if q == 1 {
      NotLevel234Once(g, l, k);
      NotLevel013Once(g, l, k);
      NotLevel014Once(g, l, k);
    } else {
      NotLevel234Twice(g, l, k);
      NotLevel013Twice(g, l, k);
      NotLevel014Twice(g, l, k);
    }
  }

  /** A difference that has lost 2^32 leads to digits that are neither equal nor nearly so. */
  lemma WrappedDifference(g: Gaps10, q: nat, r: nat)
    requires g.Valid() && 1 <= q <= 2 && g.Value() == r + q * WORD
    ensures Endless(r)
  {
    NotShort(g, q, r);
    var h := LowDigits(r);
    var v := BreakNum(r);
    if AllEqual(v) || NearlyEqual(v) {
      LevelDigits(v);
      NotLevel(g, q, r, Lowest(v), h);
    }
  }

  // ---------------------------------------------------------------- all inputs of 32 bits

  lemma WrapOfDifference(a: nat, d: nat)
    requires a <= d
    ensures Minus32(Wrap(d), Wrap(a)) == Wrap(d - a)
  {
    var k := d / WORD - a / WORD;
    assert d - a == (Wrap(d) - Wrap(a)) + WORD * k;
    WrapMultiple(Wrap(d) - Wrap(a), k);
  }

  /** The routine's next number is the true one modulo 2^32. */
  lemma NextWrapped(n: nat)
    ensures Next32(n) == Wrap(Next(n))
  {
    Extremal(Padded(n), Padded(n));
    WrapOfDifference(Asc(Padded(n)), Dsc(Padded(n)));
  }

  lemma Fits(d: nat, wrapped: nat)
    requires wrapped == Wrap(d) && d < WORD
    ensures wrapped == d
  {
  }

  lemma NextFits(n: nat)
    requires Next(n) < WORD
    ensures Next32(n) == Next(n)
  {
    NextWrapped(n);
    Fits(Next(n), Next32(n));
  }

  lemma TenPlaces()
    ensures Pow10(9) == 1_000_000_000 && Pow10(10) == 10_000_000_000
  {
    SmallPowers();
    assert Pow10(10) == 10 * Pow10(9);
  }

  lemma TenDigitNext(n: nat) returns (g: Gaps10)
    requires Pow10(9) <= n < WORD && !AllEqual(BreakNum(n))
    ensures g.Valid() && Next(n) == g.Value()
  {
    TenPlaces();
    DigitCount(n, 10);
    SortedSpread(n);
    g := TenDigitDifference(SortDesc(BreakNum(n)));
  }

  lemma WrappedGaps(g: Gaps10)
    requires g.Valid() && g.Value() >= WORD
    ensures Endless(Wrap(g.Value()))
  {
    var d := g.Value();
    WrappedDifference(g, d / WORD, Wrap(d));
  }

  lemma TenDigitStep(n: nat)
    requires Pow10(9) <= n < WORD && Endless(n) && Next(n) >= WORD
    ensures Endless(Wrap(Next(n)))
  {
    var g := TenDigitNext(n);
    WrappedGaps(g);
  }

  lemma EndlessStep32(n: nat)
    requires Endless(n) && n < WORD
    ensures Next32(n) < WORD && Endless(Next32(n))
  {
    EndlessStep(n);
    if n < Pow10(9) {
      NoWrap(n);
    } else if Next(n) < WORD {
      NextFits(n);
    } else {
      NextWrapped(n);
      TenDigitStep(n);
    }
  }

  lemma EndlessRuns32(n: nat, fuel: nat)
    requires Endless(n) && n < WORD
    ensures Run32(n, fuel) == StillRunning
  {
    var inside := iset m: nat | Endless(m) && m < WORD;
    forall m: nat | m in inside ensures !Stuck(m) && m != KAPREKAR && Next32(m) in inside {
      EndlessStep(m);
      EndlessStep32(m);
    }
    IterateForever(Stuck, Next32, inside, n, 0, fuel);
  }

  /** Ten nearly equal digits leave nine nines, which fit. */
  lemma TenDigitNumber(n: nat)
    requires Pow10(9) <= n < WORD
    ensures n >= 10000 && |BreakNum(n)| == 10
  {
    TenPlaces();
    DigitCount(n, 10);
  }

  lemma TenNearlyEqual(n: nat)
    requires Pow10(9) <= n < WORD && !AllEqual(BreakNum(n)) && NearlyEqual(BreakNum(n))
    ensures Next(n) == 999_999_999
  {
    TenDigitNumber(n);
    NearlyEqualDifference(n, 9);
    TenPlaces();
  }

  lemma NearlyEqualStep32(n: nat)
    requires Pow10(9) <= n < WORD && !AllEqual(BreakNum(n)) && NearlyEqual(BreakNum(n))
    ensures Next32(n) == Next(n)
  {
    TenNearlyEqual(n);
    NextFits(n);
  }

  lemma TenDigitRuns(n: nat, fuel: nat)
    requires Pow10(9) <= n < WORD
    ensures Run32(n, fuel) == WrapOutcome(Run(n, fuel))
  {
    TenPlaces();
    LongNumber(n);
    IterateOnce(Stuck, Next, n, 0, fuel);
    IterateOnce(Stuck, Next32, n, 0, fuel);
    if Endless(n) {
      EndlessRuns(n, fuel);
      EndlessRuns32(n, fuel);
    } else if !AllEqual(BreakNum(n)) {
      NearlyEqualStep(n);
      NearlyEqualStep32(n);
      if fuel > 0 {
        IterateOnce(Stuck, Next, Next(n), 1, fuel - 1);
        IterateOnce(Stuck, Next32, Next(n), 1, fuel - 1);
      }
    }
  }

  /**
   The arithmetic modulo 2^32 is never to be seen in the outcome: on every input an `unsigned` can hold the
   routine does, round for round, what it would do with unbounded numbers.
   */
  lemma Run32IsRun(n: nat, fuel: nat)
    requires n < WORD
    ensures Run32(n, fuel) == WrapOutcome(Run(n, fuel))
  {
    if n < Pow10(9) {
      NineDigitRuns(n, fuel);
    } else {
      TenDigitRuns(n, fuel);
    }
  }

  /** What the routine does on every `unsigned`, told from the input's digits. */
  lemma ThreeEndings32(n: nat)
    requires n < WORD
    ensures (exists fuel: nat :: Run32(n, fuel).Returned?) <==> Suitable(n)
    ensures (exists fuel: nat :: Run32(n, fuel) == DigitsEqual) <==> Exits(n)
    ensures (forall fuel: nat :: Run32(n, fuel) == StillRunning) <==> Endless(n)
    ensures Suitable(n) || Exits(n) || Endless(n)
  {
    ThreeEndings(n);
    forall fuel: nat ensures Run32(n, fuel) == WrapOutcome(Run(n, fuel)) {
      Run32IsRun(n, fuel);
    }
  }

  /** The counter it returns is the number of rounds, at most seven. */
  lemma ReturnedCount32(n: nat, fuel: nat)
    requires Suitable(n)
    ensures Rounds(n) <= 7
    ensures Run32(n, fuel) == if fuel >= Rounds(n) then Returned(Rounds(n)) else StillRunning
  {
    SuitableReturns(n);
    Run32IsRun(n, fuel);
  }

  lemma EndlessStaysBelow32(n: nat)
    requires Endless(n) && n < WORD
    ensures StaysBelow(Next32, n, WORD)
  {
    var inside := iset m: nat | Endless(m) && m < WORD;
    forall m: nat | m in inside ensures Next32(m) in inside {
      EndlessStep32(m);
    }
    forall k: nat ensures Steps(Next32, n, k) < WORD {
      StepsInside(Next32, inside, n, k);
    }
  }

  /** A run of the routine that goes on for ever goes round in a circle. */
  lemma EndlessRepeats32(n: nat) returns (i: nat, period: nat)
    requires Endless(n) && n < WORD
    ensures Repeats(Next32, n, i, period) && i + period <= WORD
  {
    EndlessStaysBelow32(n);
    i, period := BoundedRepeats(Next32, n, WORD);
  }

  lemma ExitsSoon32(n: nat, fuel: nat)
    requires n < WORD && Exits(n) && fuel >= 5
    ensures Run32(n, fuel) == DigitsEqual
  {
    Run32IsRun(n, fuel);
    ExitsSoon(n, fuel);
  }
}

/** The loop of kaprekar.cxx over unbounded numbers. */
module Kaprekar {
  import opened Digits
  import opened Sequences

  const KAPREKAR: nat := 6174

  /** The digits as `getAscDscNum` rearranges them: a three-digit number gets a leading zero. */
  function Padded(n: nat): seq<nat> {
    var v := BreakNum(n);
    if |v| == 3 then v + [0] else v
  }

  /** `exit(1)` on equal digits is an outcome of its own. */
  datatype Outcome = Returned(iterations: nat) | DigitsEqual | StillRunning

  /** The equal-digits exit is taken. */
  predicate Stuck(n: nat) {
    AllEqual(Padded(n))
  }

  function Next(n: nat): nat {
    Extremal(Padded(n), Padded(n));
    Dsc(Padded(n)) - Asc(Padded(n))
  }

  /** The loop around a round, with at most `fuel` rounds; every result below is about all values of `fuel`. */
  function Iterate(stuck: nat -> bool, next: nat -> nat, n: nat, iterations: nat, fuel: nat): Outcome
    decreases fuel
  {
    if stuck(n) then DigitsEqual
    else if n == KAPREKAR then Returned(iterations)
    else if fuel == 0 then StillRunning
    else Iterate(stuck, next, next(n), iterations + 1, fuel - 1)
  }

  function Run(n: nat, fuel: nat): Outcome {
    Iterate(Stuck, Next, n, 0, fuel)
  }

  /** The inputs the routine is made for. */
  predicate Suitable(n: nat) {
    100 <= n <= 9999 && !(n >= 1000 && n % 1111 == 0)
  }

  // ---------------------------------------------------------------- the loop for any round

  /** Successive numbers of the loop, up to one where it ends. */
  ghost predicate Trajectory(stuck: nat -> bool, next: nat -> nat, path: seq<nat>) {
    && path != []
    && (stuck(path[|path| - 1]) || path[|path| - 1] == KAPREKAR)
    && (forall i :: 0 <= i < |path| - 1 ==> !stuck(path[i]) && path[i] != KAPREKAR && next(path[i]) == path[i + 1])
  }

  lemma {:induction false} IterateAlong(stuck: nat -> bool, next: nat -> nat, path: seq<nat>, i: nat, iterations: nat,
                                        fuel: nat)
    requires Trajectory(stuck, next, path) && i < |path| && fuel >= |path| - 1 - i
    ensures Iterate(stuck, next, path[i], iterations, fuel) ==
            if stuck(path[|path| - 1]) then DigitsEqual else Returned(iterations + |path| - 1 - i)
    decreases |path| - i
  {
    if i < |path| - 1 {
      IterateAlong(stuck, next, path, i + 1, iterations + 1, fuel - 1);
    }
  }

  lemma {:induction false} IterateShort(stuck: nat -> bool, next: nat -> nat, path: seq<nat>, i: nat, iterations: nat,
                                        fuel: nat)
    requires Trajectory(stuck, next, path) && i + fuel < |path| - 1
    ensures Iterate(stuck, next, path[i], iterations, fuel) == StillRunning
    decreases fuel
  {
    if fuel > 0 {
      IterateShort(stuck, next, path, i + 1, iterations + 1, fuel - 1);
    }
  }

  lemma LongerTrajectory(stuck: nat -> bool, next: nat -> nat, n: nat, rest: seq<nat>) returns (path: seq<nat>)
    requires Trajectory(stuck, next, rest) && !stuck(n) && n != KAPREKAR && next(n) == rest[0]
    ensures Trajectory(stuck, next, path) && path == [n] + rest
    ensures path[0] == n && path[|path| - 1] == rest[|rest| - 1]
  {
    path := [n] + rest;
    forall i | 0 <= i < |path| - 1 ensures !stuck(path[i]) && path[i] != KAPREKAR && next(path[i]) == path[i + 1] {
      assert i > 0 ==> path[i] == rest[i - 1];
    }
  }

  lemma IterateOnce(stuck: nat -> bool, next: nat -> nat, n: nat, iterations: nat, fuel: nat)
    ensures stuck(n) ==> Iterate(stuck, next, n, iterations, fuel) == DigitsEqual
    ensures !stuck(n) && n == KAPREKAR ==> Iterate(stuck, next, n, iterations, fuel) == Returned(iterations)
    ensures !stuck(n) && n != KAPREKAR ==>
              Iterate(stuck, next, n, iterations, fuel) ==
              if fuel == 0 then StillRunning else Iterate(stuck, next, next(n), iterations + 1, fuel - 1)
  {
  }

  /** A set of numbers that rounds do not leave and that does not contain 6174 keeps the loop from returning. */
  lemma {:induction false} IterateAvoids(stuck: nat -> bool, next: nat -> nat, inside: nat -> bool, n: nat,
                                         iterations: nat, fuel: nat)
    requires forall m: nat :: inside(m) && !stuck(m) ==> m != KAPREKAR && inside(next(m))
    requires inside(n)
    ensures !Iterate(stuck, next, n, iterations, fuel).Returned?
    decreases fuel
  {
    if !stuck(n) && fuel > 0 {
      IterateAvoids(stuck, next, inside, next(n), iterations + 1, fuel - 1);
    }
  }

  /** Two rounds that agree on a set of numbers they do not leave make the same loop there. */
  lemma {:induction false} IterateAgrees(stuck: nat -> bool, next: nat -> nat, next': nat -> nat, inside: nat -> bool,
                                         n: nat, iterations: nat, fuel: nat)
    requires forall m: nat :: inside(m) && !stuck(m) ==> next(m) == next'(m) && inside(next(m))
    requires inside(n)
    ensures Iterate(stuck, next, n, iterations, fuel) == Iterate(stuck, next', n, iterations, fuel)
    decreases fuel
  {
    if !stuck(n) && n != KAPREKAR && fuel > 0 {
      IterateAgrees(stuck, next, next', inside, next(n), iterations + 1, fuel - 1);
    }
  }

  // ---------------------------------------------------------------- runs that repeat themselves

  /** The number the loop has come to after k rounds. */
  function Steps(next: nat -> nat, n: nat, k: nat): nat {
    if k == 0 then n else next(Steps(next, n, k - 1))
  }

  lemma {:induction false} StepsInside(next: nat -> nat, inside: iset<nat>, n: nat, k: nat)
    requires n in inside && forall m: nat :: m in inside ==> next(m) in inside
    ensures Steps(next, n, k) in inside
  {
    if k > 0 {
      StepsInside(next, inside, n, k - 1);
    }
  }

  ghost predicate GoesOn(stuck: nat -> bool, next: nat -> nat, n: nat, rounds: nat) {
    forall i: nat :: i < rounds ==> !stuck(Steps(next, n, i)) && Steps(next, n, i) != KAPREKAR
  }

  lemma GoesOnOnce(stuck: nat -> bool, next: nat -> nat, n: nat, rounds: nat, m: nat)
    requires GoesOn(stuck, next, n, rounds) && m == Steps(next, n, rounds) && !stuck(m) && m != KAPREKAR
    ensures GoesOn(stuck, next, n, rounds + 1) && Steps(next, n, rounds + 1) == next(m)
  {
  }

  /** What is left of a loop that has gone through so many rounds. */
  lemma {:induction false} IterateSteps(stuck: nat -> bool, next: nat -> nat, n: nat, rounds: nat, fuel: nat)
    requires GoesOn(stuck, next, n, rounds) && rounds <= fuel
    ensures Iterate(stuck, next, n, 0, fuel) == Iterate(stuck, next, Steps(next, n, rounds), rounds, fuel - rounds)
  {
    if rounds > 0 {
      IterateSteps(stuck, next, n, rounds - 1, fuel);
      IterateOnce(stuck, next, Steps(next, n, rounds - 1), rounds - 1, fuel - (rounds - 1));
    }
  }

  /** The outcome of a loop that has come to its end, or is given up, after so many rounds. */
  lemma IterateEnds(stuck: nat -> bool, next: nat -> nat, n: nat, rounds: nat, fuel: nat, m: nat)
    requires GoesOn(stuck, next, n, rounds) && rounds <= fuel && m == Steps(next, n, rounds)
    requires stuck(m) || m == KAPREKAR || rounds == fuel
    ensures Iterate(stuck, next, n, 0, fuel) ==
            if stuck(m) then DigitsEqual else if m == KAPREKAR then Returned(rounds) else StillRunning
  {
    IterateSteps(stuck, next, n, rounds, fuel);
    IterateOnce(stuck, next, m, rounds, fuel - rounds);
  }

  /** More numbers than there are below the bound: two of them are equal. */
  lemma {:induction false} Pigeonhole(s: seq<nat>, bound: nat) returns (i: nat, j: nat)
    requires |s| > bound && forall k :: 0 <= k < |s| ==> s[k] < bound
    ensures i < j < |s| && s[i] == s[j]
    decreases bound
  {
    assert s[0] < bound;
    if a, b :| 0 <= a < b < |s| && s[a] == s[b] == bound - 1 {
      i, j := a, b;
    } else if a :| 0 <= a < |s| && s[a] == bound - 1 {
      var t := s[..a] + s[a + 1..];
      forall k | 0 <= k < |t| ensures t[k] < bound - 1 {
        assert t[k] == if k < a then s[k] else s[k + 1];
      }
      i, j := Pigeonhole(t, bound - 1);
      i, j := if i < a then i else i + 1, if j < a then j else j + 1;
    } else {
      i, j := Pigeonhole(s, bound - 1);
    }
  }

  lemma {:induction false} StepsAgree(next: nat -> nat, n: nat, i: nat, j: nat, t: nat)
    requires Steps(next, n, i) == Steps(next, n, j)
    ensures Steps(next, n, i + t) == Steps(next, n, j + t)
  {
    if t > 0 {
      StepsAgree(next, n, i, j, t - 1);
    }
  }

  predicate SameLater(next: nat -> nat, n: nat, t: nat, period: nat) {
    Steps(next, n, t + period) == Steps(next, n, t)
  }

  /** From round i on the numbers come again and again. */
  ghost predicate Repeats(next: nat -> nat, n: nat, i: nat, period: nat) {
    period > 0 && forall t: nat :: t >= i ==> SameLater(next, n, t, period)
  }

  ghost predicate StaysBelow(next: nat -> nat, n: nat, bound: nat) {
    forall k: nat :: Steps(next, n, k) < bound
  }

  /** Numbers that stay below a bound repeat themselves within that many rounds, and from then on for ever. */
  lemma BoundedRepeats(next: nat -> nat, n: nat, bound: nat) returns (i: nat, period: nat)
    requires StaysBelow(next, n, bound)
    ensures Repeats(next, n, i, period) && i + period <= bound
  {
    var s := seq(bound + 1, k requires k >= 0 => Steps(next, n, k));
    var a, b := Pigeonhole(s, bound);
    i, period := a, b - a;
    forall t: nat | t >= i ensures SameLater(next, n, t, period) {
      StepsAgree(next, n, b, a, t - i);
      assert b + (t - i) == t + period;
    }
  }

  // ---------------------------------------------------------------- four digits

  function Insert1(d: nat, p: nat): (nat, nat) {
    if d >= p then (d, p) else (p, d)
  }

  function Insert2(d: nat, p: nat, q: nat): (nat, nat, nat) {
    if d >= p then (d, p, q) else if d >= q then (p, d, q) else (p, q, d)
  }

  function Insert3(d: nat, p: nat, q: nat, r: nat): (nat, nat, nat, nat) {
    if d >= p then (d, p, q, r) else if d >= q then (p, d, q, r) else if d >= r then (p, q, d, r) else (p, q, r, d)
  }

  function Sort4(a: nat, b: nat, c: nat, d: nat): (nat, nat, nat, nat) {
    var (p, q) := Insert1(c, d);
    var (x, y, z) := Insert2(b, p, q);
    Insert3(a, x, y, z)
  }

  lemma InsertDescThree(d: nat, p: nat, q: nat, r: nat)
    ensures InsertDesc(d, [r]) == [Insert1(d, r).0, Insert1(d, r).1]
    ensures var i := Insert2(d, q, r); InsertDesc(d, [q, r]) == [i.0, i.1, i.2]
    ensures var i := Insert3(d, p, q, r); InsertDesc(d, [p, q, r]) == [i.0, i.1, i.2, i.3]
  {
    assert [p, q, r][1..] == [q, r] && [q, r][1..] == [r] && [r][1..] == [];
    assert InsertDesc(d, []) == [d];
  }

  lemma SortDescFour(a: nat, b: nat, c: nat, d: nat)
    ensures var s := Sort4(a, b, c, d); SortDesc([a, b, c, d]) == [s.0, s.1, s.2, s.3]
    ensures var s := Sort4(a, b, c, d); s.0 >= s.1 >= s.2 >= s.3
  {
    assert [a, b, c, d][1..] == [b, c, d] && [b, c, d][1..] == [c, d] && [c, d][1..] == [d] && [d][1..] == [];
    assert SortDesc([d]) == [d];
    InsertDescThree(c, 0, 0, d);
    var (p, q) := Insert1(c, d);
    assert SortDesc([c, d]) == [p, q];
    InsertDescThree(b, 0, p, q);
    var (x, y, z) := Insert2(b, p, q);
    assert SortDesc([b, c, d]) == [x, y, z];
    InsertDescThree(a, x, y, z);
  }

  lemma MakeNum4(a: nat, b: nat, c: nat, d: nat)
    ensures MakeNum([a, b, c, d]) == a + 10 * b + 100 * c + 1000 * d
  {
    assert [a, b, c, d][1..] == [b, c, d] && [b, c, d][1..] == [c, d] && [c, d][1..] == [d] && [d][1..] == [];
    assert MakeNum([d]) == d;
    assert MakeNum([c, d]) == c + 10 * d;
    assert MakeNum([b, c, d]) == b + 10 * (c + 10 * d);
  }

  /** The next number of four digits depends on two differences only. */
  function Gaps(v: seq<nat>): (nat, nat)
    requires |v| == 4
  {
    var (w, x, y, z) := Sort4(v[0], v[1], v[2], v[3]);
    (w - z, x - y)
  }

  function Value(a: nat, b: nat): nat { 999 * a + 90 * b }

  lemma GapsInRange(v: seq<nat>)
    requires |v| == 4 && IsDigits(v) && !AllEqual(v)
    ensures var (a, b) := Gaps(v); 1 <= a <= 9 && b <= a
  {
    FourEqual(v);
  }

  lemma FourDigitDifference(v: seq<nat>)
    requires |v| == 4 && IsDigits(v) && !AllEqual(v)
    ensures var (a, b) := Gaps(v);
            1 <= a <= 9 && b <= a && Dsc(v) - Asc(v) == Value(a, b)
  {
    GapsInRange(v);
    var (w, x, y, z) := Sort4(v[0], v[1], v[2], v[3]);
    SortDescFour(v[0], v[1], v[2], v[3]);
    assert v == [v[0], v[1], v[2], v[3]];
    SortedFour(v, w, x, y, z);
  }

  lemma SortedFour(v: seq<nat>, w: nat, x: nat, y: nat, z: nat)
    requires SortDesc(v) == [w, x, y, z] && w >= x >= y >= z
    ensures Dsc(v) - Asc(v) == Value(w - z, x - y)
  {
    FourDifference(w, x, y, z);
  }

  lemma FourDifference(w: nat, x: nat, y: nat, z: nat)
    requires w >= x >= y >= z
    ensures MakeNum(Reverse([w, x, y, z])) - MakeNum([w, x, y, z]) == Value(w - z, x - y)
  {
    assert Reverse([w, x, y, z]) == [z, y, x, w];
    MakeNum4(w, x, y, z);
    MakeNum4(z, y, x, w);
  }

  function GapDigits(a: nat, b: nat): seq<nat>
    requires 1 <= a <= 9 && b <= a
  {
    if b == 0 then [10 - a, 9, 9, a - 1] else [10 - a, 9 - b, b - 1, a]
  }

  lemma BreakFour(a: nat, b: nat, c: nat, d: nat)
    requires a < 10 && b < 10 && c < 10 && 0 < d < 10
    ensures BreakNum(a + 10 * b + 100 * c + 1000 * d) == [a, b, c, d]
  {
    MakeNum4(a, b, c, d);
    BreakAfterMake([a, b, c, d]);
  }

  lemma BreakThree(a: nat, b: nat, c: nat)
    requires a < 10 && b < 10 && 0 < c < 10
    ensures BreakNum(a + 10 * b + 100 * c) == [a, b, c]
  {
    assert [a, b, c][1..] == [b, c] && [b, c][1..] == [c] && [c][1..] == [];
    assert MakeNum([c]) == c;
    assert MakeNum([b, c]) == b + 10 * c;
    BreakAfterMake([a, b, c]);
  }

  lemma ValueDigits(a: nat, b: nat)
    requires 1 <= a <= 9 && b <= a
    ensures Padded(Value(a, b)) == GapDigits(a, b)
  {
    if b > 0 {
      BreakFour(10 - a, 9 - b, b - 1, a);
    } else if a > 1 {
      BreakFour(10 - a, 9, 9, a - 1);
    } else {
      BreakThree(9, 9, 9);
    }
  }

  function NextGaps(a: nat, b: nat): (nat, nat)
    requires 1 <= a <= 9 && b <= a
  {
    Gaps(GapDigits(a, b))
  }

  /** How many rounds the gaps a, b are away from 6174, which has the gaps 6, 2 one round earlier. */
  function Distance(a: nat, b: nat): nat
    requires 1 <= a <= 9 && b <= a
  {
    match a
    case 1 => if b == 0 then 4 else 3
    case 2 => if b == 0 then 3 else if b == 1 then 2 else 5
    case 3 => if b == 1 then 2 else if b == 2 then 4 else 5
    case 4 => if b == 0 then 3 else if b == 1 then 6 else b - 1
    case 5 => if b == 0 then 5 else if b <= 2 then 6 else 4
    case 6 => if b == 0 then 5 else if b == 1 then 6 else if b == 2 then 0 else if b == 6 then 3 else b - 1
    case 7 => if b == 0 then 3 else if b == 2 || b == 5 then 4 else if b == 3 || b == 7 then 5 else 2
    case 8 =>
      if b == 1 then 2 else if b == 5 then 6 else if b == 4 || b == 6 then 1 else if b == 3 || b == 7 then 4 else 5
    case 9 => if 4 <= b <= 6 then 6 else if b <= 1 || b == 9 then 3 else 2
  }

  lemma DistanceDrops(a: nat, b: nat)
    requires 1 <= a <= 9 && b <= a
    ensures Distance(a, b) <= 6 && (Distance(a, b) == 0 <==> Value(a, b) == KAPREKAR)
    ensures var (c, d) := NextGaps(a, b);
            1 <= c <= 9 && d <= c && (Distance(a, b) > 0 ==> Distance(c, d) == Distance(a, b) - 1)
  {
    if a <= 6 {
      DistanceDropsLow(a, b);
    } else {
      DistanceDropsHigh(a, b);
    }
  }

  lemma DistanceDropsLow(a: nat, b: nat)
    requires 1 <= a <= 6 && b <= a
    ensures var (c, d) := NextGaps(a, b);
            1 <= c <= 9 && d <= c && (Distance(a, b) > 0 ==> Distance(c, d) == Distance(a, b) - 1)
  {
  }

  lemma DistanceDropsHigh(a: nat, b: nat)
    requires 7 <= a <= 9 && b <= a
    ensures var (c, d) := NextGaps(a, b);
            1 <= c <= 9 && d <= c && (Distance(a, b) > 0 ==> Distance(c, d) == Distance(a, b) - 1)
  {
  }

  // ---------------------------------------------------------------- the exact outcome

  lemma FourDigits(n: nat)
    ensures |Padded(n)| == 4 <==> 100 <= n <= 9999
    ensures IsDigits(Padded(n)) && MakeNum(Padded(n)) == n
  {
    DigitCount(n, 3);
    DigitCount(n, 4);
    assert Pow10(0) == 1 && Pow10(1) == 10 && Pow10(2) == 100 && Pow10(3) == 1000 && Pow10(4) == 10000;
    MakeAfterBreak(n);
    MakeConcat(BreakNum(n), [0]);
    assert MakeNum([0]) == 0;
  }

  lemma RepDigit(n: nat)
    requires 1000 <= n <= 9999 && n % 1111 == 0
    ensures AllEqual(Padded(n))
  {
    var k := n / 1111;
    assert n == k + 10 * k + 100 * k + 1000 * k;
    BreakFour(k, k, k, k);
  }

  lemma FourEqual(v: seq<nat>)
    requires |v| == 4
    ensures v == [v[0], v[1], v[2], v[3]]
    ensures AllEqual(v) <==> v[0] == v[1] == v[2] == v[3]
  {
    if AllEqual(v) {
      AllEqualFirst(v, 1);
      AllEqualFirst(v, 2);
      AllEqualFirst(v, 3);
    }
  }

  /** `Suitable` is what the digits say: four of them after padding, and not all equal. */
  lemma SuitableDigits(n: nat)
    ensures Suitable(n) <==> |Padded(n)| == 4 && !AllEqual(Padded(n))
  {
    FourDigits(n);
    if 100 <= n <= 9999 {
      var v := Padded(n);
      FourEqual(v);
      MakeNum4(v[0], v[1], v[2], v[3]);
      if n % 1111 == 0 && n >= 1000 {
        RepDigit(n);
      }
    }
  }

  /** One round keeps a suitable number suitable and reads off its gaps. */
  lemma SuitableStep(n: nat)
    requires Suitable(n)
    ensures |Padded(n)| == 4 && !AllEqual(Padded(n))
    ensures var (a, b) := Gaps(Padded(n));
            1 <= a <= 9 && b <= a && Next(n) == Value(a, b)
  {
    SuitableDigits(n);
    FourDigits(n);
    FourDigitDifference(Padded(n));
  }

  lemma GapsAreSuitable(a: nat, b: nat)
    requires 1 <= a <= 9 && b <= a
    ensures Suitable(Value(a, b)) && Padded(Value(a, b)) == GapDigits(a, b)
  {
    ValueDigits(a, b);
    FourEqual(GapDigits(a, b));
    SuitableDigits(Value(a, b));
  }

  lemma ValueStep(a: nat, b: nat) returns (c: nat, d: nat)
    requires 1 <= a <= 9 && b <= a
    ensures 1 <= c <= 9 && d <= c && Next(Value(a, b)) == Value(c, d)
    ensures !Stuck(Value(a, b))
    ensures Distance(a, b) == 0 <==> Value(a, b) == KAPREKAR
    ensures Distance(a, b) > 0 ==> Distance(c, d) == Distance(a, b) - 1
  {
    c, d := NextGaps(a, b).0, NextGaps(a, b).1;
    GapsAreSuitable(a, b);
    SuitableStep(Value(a, b));
    DistanceDrops(a, b);
  }

  lemma {:induction false} ValueTrajectory(a: nat, b: nat, distance: nat) returns (path: seq<nat>)
    requires 1 <= a <= 9 && b <= a && distance == Distance(a, b)
    ensures Trajectory(Stuck, Next, path) && path[0] == Value(a, b) && |path| == distance + 1
    ensures !Stuck(path[|path| - 1])
    decreases distance
  {
    var c, d := ValueStep(a, b);
    if distance > 0 {
      var rest := ValueTrajectory(c, d, distance - 1);
      path := LongerTrajectory(Stuck, Next, Value(a, b), rest);
    } else {
      path := [Value(a, b)];
    }
  }

  lemma FirstRound(n: nat) returns (a: nat, b: nat)
    requires Suitable(n)
    ensures |Padded(n)| == 4 && a == Gaps(Padded(n)).0 && b == Gaps(Padded(n)).1
    ensures 1 <= a <= 9 && b <= a && Next(n) == Value(a, b)
    ensures !Stuck(n) && Distance(a, b) <= 6
  {
    SuitableStep(n);
    a, b := Gaps(Padded(n)).0, Gaps(Padded(n)).1;
    DistanceDrops(a, b);
  }

  /** The number of rounds from a suitable number to 6174. */
  function Rounds(n: nat): nat
    requires Suitable(n)
  {
    SuitableStep(n);
    if n == KAPREKAR then 0 else 1 + Distance(Gaps(Padded(n)).0, Gaps(Padded(n)).1)
  }

  lemma SuitableTrajectory(n: nat) returns (path: seq<nat>)
    requires Suitable(n)
    ensures Trajectory(Stuck, Next, path) && path[0] == n && |path| == Rounds(n) + 1 <= 8
    ensures !Stuck(path[|path| - 1])
  {
    var a, b := FirstRound(n);
    if n == KAPREKAR {
      path := [n];
    } else {
      var rest := ValueTrajectory(a, b, Distance(a, b));
      path := LongerTrajectory(Stuck, Next, n, rest);
    }
  }

  /** A suitable number reaches 6174 after exactly this number of rounds, at most seven. */
  lemma SuitableReturns(n: nat)
    requires Suitable(n)
    ensures Rounds(n) <= 7
    ensures forall fuel: nat :: Run(n, fuel) == if fuel >= Rounds(n) then Returned(Rounds(n)) else StillRunning
  {
    var path := SuitableTrajectory(n);
    forall fuel: nat ensures Run(n, fuel) == if fuel >= Rounds(n) then Returned(Rounds(n)) else StillRunning {
      if fuel >= Rounds(n) {
        IterateAlong(Stuck, Next, path, 0, 0, fuel);
      } else {
        IterateShort(Stuck, Next, path, 0, 0, fuel);
      }
    }
  }

  /** Some numbers need all seven. */
  lemma SevenRounds()
    ensures Suitable(1400) && Rounds(1400) == 7
  {
    BreakFour(0, 0, 4, 1);
  }

  /** From an unsuitable number a round leads to an unsuitable number, so 6174 is never met. */
  lemma UnsuitableStep(n: nat)
    requires !Suitable(n) && !Stuck(n)
    ensures !Suitable(Next(n)) && n != KAPREKAR
  {
    SuitableDigits(n);
    NextBounds(n);
    NotFourDigits(Next(n), |Padded(n)|);
  }

  lemma NextBounds(n: nat)
    requires !Stuck(n)
    ensures |Padded(n)| >= 2 && Pow10(|Padded(n)| - 1) - 1 <= Next(n) < Pow10(|Padded(n)|)
  {
    FourDigits(n);
    DifferenceBounds(Padded(n));
  }

  /** A difference of two digits is below 100, one of five digits or more is 9999 or above 9999. */
  lemma NotFourDigits(d: nat, k: nat)
    requires k > 0 && Pow10(k - 1) - 1 <= d < Pow10(k) && (k <= 2 || k >= 5)
    ensures !Suitable(d)
  {
    assert Pow10(4) == 10000 by { assert Pow10(2) == 100 by { assert Pow10(1) == 10; } }
    if k <= 2 {
      Pow10Grows(k, 2);
    } else {
      Pow10Grows(4, k - 1);
    }
  }

  predicate Unsuitable(n: nat) {
    !Suitable(n)
  }

  lemma UnsuitableNeverReturns(n: nat, fuel: nat)
    requires Unsuitable(n)
    ensures !Run(n, fuel).Returned?
  {
    forall m: nat | Unsuitable(m) && !Stuck(m) ensures m != KAPREKAR && Unsuitable(Next(m)) {
      UnsuitableStep(m);
    }
    IterateAvoids(Stuck, Next, Unsuitable, n, 0, fuel);
  }

  /** The loop returns for exactly the suitable inputs, and then after at most seven rounds. */
  lemma ExactOutcome(n: nat)
    ensures (exists fuel: nat :: Run(n, fuel).Returned?) <==> Suitable(n)
    ensures Suitable(n) ==>
              Rounds(n) <= 7 && forall fuel: nat :: fuel >= Rounds(n) ==> Run(n, fuel) == Returned(Rounds(n))
  {
    if Suitable(n) {
      SuitableReturns(n);
      assert Run(n, 7).Returned?;
    } else {
      forall fuel: nat ensures !Run(n, fuel).Returned? {
        UnsuitableNeverReturns(n, fuel);
      }
    }
  }

  // ---------------------------------------------------------------- the shape of the iterates

  /** The next number has as many digits as the rearranged ones, or is one short and all nines. */
  lemma NextDigitCount(n: nat)
    requires !Stuck(n)
    ensures var k := |Padded(n)|;
            && k >= 2
            && (|BreakNum(Next(n))| == k || (Next(n) == Pow10(k - 1) - 1 && |BreakNum(Next(n))| == k - 1))
  {
    var k := |Padded(n)|;
    FourDigits(n);
    DifferenceBounds(Padded(n));
    DigitCount(Next(n), k);
    DigitCount(Next(n), k - 1);
    Pow10Grows(k - 2, k - 1);
    assert Pow10(k - 1) == 10 * Pow10(k - 2);
  }

  /** A difference of two arrangements of the same digits is divisible by nine, whatever their number. */
  lemma NextDivisibleByNine(n: nat)
    ensures Next(n) % 9 == 0
  {
    var v := Padded(n);
    Extremal(v, v);
    ExtremesAttained(v);
    MakeModNine(SortDesc(v));
    MakeModNine(Reverse(SortDesc(v)));
    DigitSumPermutation(SortDesc(v), Reverse(SortDesc(v)));
    DifferenceModNine(Asc(v), Dsc(v));
  }

  lemma DifferenceModNine(a: nat, d: nat)
    requires a <= d && a % 9 == d % 9
    ensures (d - a) % 9 == 0
  {
  }

  lemma TwoDigits(n: nat)
    requires n < 100
    ensures n < 10 ==> AllEqual(Padded(n))
    ensures n >= 10 ==> Padded(n) == [n % 10, n / 10]
  {
    DigitCountBelow(n, 2);
    DigitCountBelow(n, 1);
    assert Pow10(1) == 10 && Pow10(2) == 100;
    if n >= 10 {
      assert BreakNum(n / 10) == [n / 10] + BreakNum(n / 100);
    }
  }

  lemma MakeTwo(p: nat, q: nat)
    ensures MakeNum([p, q]) == p + 10 * q
  {
    assert [p, q][1..] == [q] && [q][1..] == [];
    assert MakeNum([q]) == q;
  }

  lemma SortTwo(c: nat, d: nat)
    ensures var (p, q) := Insert1(c, d); SortDesc([c, d]) == [p, q] && p >= q
  {
    assert [c, d][1..] == [d] && [d][1..] == [];
    assert SortDesc([d]) == [d];
    InsertDescThree(c, 0, 0, d);
  }

  /** Two digits leave nine times their distance. */
  lemma TwoDigitDifference(n: nat)
    requires 10 <= n < 100
    ensures var d := (n % 10) as int - n / 10;
            Next(n) == 9 * (if d < 0 then -d else d)
  {
    TwoDigits(n);
    SortTwo(n % 10, n / 10);
    var (p, q) := Insert1(n % 10, n / 10);
    assert Reverse([p, q]) == [q, p];
    MakeTwo(p, q);
    MakeTwo(q, p);
  }

  lemma TwoDigitsStuck(n: nat)
    requires n < 100
    ensures Stuck(n) <==> n < 10 || n % 10 == n / 10
  {
    TwoDigits(n);
    if n >= 10 {
      assert Stuck(n) ==> Padded(n)[1 - 1] == Padded(n)[1];
    }
  }

  /** Rounds left from 9 * d, a difference of two digits; 9 itself is a single digit, so its digits are all equal. */
  function NinesDistance(d: nat): nat {
    if d <= 1 then 0 else if d == 5 || d == 6 then 1 else if d == 3 || d == 8 then 2
    else if d == 4 || d == 7 then 3 else 4
  }

  lemma NinesStep(d: nat)
    requires 2 <= d <= 9
    ensures !Stuck(9 * d) && Next(9 * d) == 9 * (if 2 * d > 11 then 2 * d - 11 else 11 - 2 * d)
  {
    assert (9 * d) / 10 == d - 1 && (9 * d) % 10 == 10 - d;
    TwoDigitsStuck(9 * d);
    TwoDigitDifference(9 * d);
  }

  lemma {:induction false} NinesTrajectory(d: nat) returns (path: seq<nat>)
    requires d <= 9
    ensures Trajectory(Stuck, Next, path) && path[0] == 9 * d && |path| == NinesDistance(d) + 1
    ensures Stuck(path[|path| - 1])
    decreases NinesDistance(d)
  {
    if d <= 1 {
      TwoDigitsStuck(9 * d);
      path := [9 * d];
    } else {
      NinesStep(d);
      var rest := NinesTrajectory(if 2 * d > 11 then 2 * d - 11 else 11 - 2 * d);
      path := LongerTrajectory(Stuck, Next, 9 * d, rest);
    }
  }

  /** Inputs below 100 take the equal-digits exit after at most five rounds. */
  lemma SmallInputsExit(n: nat, fuel: nat)
    requires n < 100 && fuel >= 5
    ensures Run(n, fuel) == DigitsEqual
  {
    TwoDigitsStuck(n);
    if !Stuck(n) {
      TwoDigitDifference(n);
      var rest := NinesTrajectory(Next(n) / 9);
      var path := LongerTrajectory(Stuck, Next, n, rest);
      IterateAlong(Stuck, Next, path, 0, 0, fuel);
    }
  }
}

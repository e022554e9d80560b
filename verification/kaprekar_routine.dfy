/** kaprekar.cxx statement by statement, with `unsigned` arithmetic modulo 2^32. */
module KaprekarRoutine {
  import opened Arithmetic
  import opened Digits
  import opened Kaprekar
  import opened Sequences

  /** Subtraction of `unsigned` numbers. */
  function Minus32(a: nat, b: nat): nat {
    Wrap(a - b)
  }

  function Next32(n: nat): nat {
    Minus32(Wrap(Dsc(Padded(n))), Wrap(Asc(Padded(n))))
  }

  function Run32(n: nat, fuel: nat): Outcome {
    WrapOutcome(Iterate(Stuck, Next32, n, 0, fuel))
  }

  /** The iteration counter is `unsigned` as well. */
  function WrapOutcome(r: Outcome): Outcome {
    if r.Returned? then Returned(Wrap(r.iterations)) else r
  }

  // ---------------------------------------------------------------- the code

  method BreakNumLoop(num: nat, v0: seq<nat>) returns (v: seq<nat>)
    ensures v == v0 + BreakNum(num)
  {
    v := v0;
    var lNum, rem := num, 0;
    while lNum != 0
      invariant v + BreakNum(lNum) == v0 + BreakNum(num)
    {
      rem := lNum % 10;
      v := v + [rem];
      lNum := lNum / 10;
    }
  }

  lemma WrapMultiplyAdd(num: nat, digit: nat, placeVal: nat)
    ensures Wrap(Wrap(num) + digit * Wrap(placeVal)) == Wrap(num + digit * placeVal)
  {
    var k := num / WORD + digit * (placeVal / WORD);
    assert placeVal == WORD * (placeVal / WORD) + Wrap(placeVal);
    assert digit * placeVal == WORD * (digit * (placeVal / WORD)) + digit * Wrap(placeVal);
    WrapMultiple(Wrap(num) + digit * Wrap(placeVal), k);
  }

  method MakeNumLoop(v: seq<nat>) returns (num: nat)
    ensures num == Wrap(MakeNum(v))
  {
    num := 0;
    var placeVal := 1;
    for i := 0 to |v|
      invariant num == Wrap(MakeNum(v[..i]))
      invariant placeVal == Wrap(Pow10(i))
    {
      assert v[..i + 1] == v[..i] + [v[i]];
      MakeConcat(v[..i], [v[i]]);
      assert MakeNum([v[i]]) == v[i];
      WrapMultiplyAdd(MakeNum(v[..i]), v[i], Pow10(i));
      WrapMultiplyAdd(0, 10, Pow10(i));
      num := Wrap(num + v[i] * placeVal);
      placeVal := Wrap(placeVal * 10);
    }
    assert v[..|v|] == v;
  }

  /** The routine's `exit(1)` is reported as `equal`. */
  method GetAscDscNum(inputNum: nat) returns (equal: bool, ascNum: nat, dscNum: nat)
    ensures equal <==> Stuck(inputNum)
    ensures !equal ==> ascNum == Wrap(Asc(Padded(inputNum))) && dscNum == Wrap(Dsc(Padded(inputNum)))
    ensures !equal ==> Minus32(dscNum, ascNum) == Next32(inputNum)
  {
    var v := BreakNumLoop(inputNum, []);
    assert v == BreakNum(inputNum);
    if |v| == 3 {
      v := v + [0];
    }
    equal, ascNum, dscNum := AllEqual(v), 0, 0;
    if equal {
      return;
    }
    v := SortDesc(v);
    ascNum := MakeNumLoop(v);
    v := Reverse(v);
    dscNum := MakeNumLoop(v);
  }

  /** The loop has come to n after so many rounds, none of which ended it. */
  ghost predicate CameTo(num: nat, rounds: nat, n: nat) {
    GoesOn(Stuck, Next32, num, rounds) && n == Steps(Next32, num, rounds)
  }

  lemma RoundOfTheLoop(num: nat, rounds: nat, n: nat)
    requires CameTo(num, rounds, n) && !Stuck(n) && n != KAPREKAR
    ensures CameTo(num, rounds + 1, Next32(n))
  {
    GoesOnOnce(Stuck, Next32, num, rounds, n);
  }

  /** The outcome, once the loop has come to its end or is given up. */
  lemma EndOfTheLoop(num: nat, rounds: nat, n: nat, fuel: nat)
    requires CameTo(num, rounds, n) && rounds <= fuel
    requires Stuck(n) || n == KAPREKAR || rounds == fuel
    ensures Run32(num, fuel) ==
            if Stuck(n) then DigitsEqual else if n == KAPREKAR then Returned(Wrap(rounds)) else StillRunning
  {
    IterateEnds(Stuck, Next32, num, rounds, fuel, n);
  }

  /** `num_iter++` */
  method CountRound(numIter: nat, ghost rounds: nat) returns (count: nat)
    requires numIter == Wrap(rounds)
    ensures count == Wrap(rounds + 1)
  {
    WrapSum(rounds, 1);
    count := Wrap(numIter + 1);
  }

  /** The main loop, given up after `fuel` rounds. */
  method KaprekarIterations(num: nat, fuel: nat) returns (r: Outcome)
    ensures r == Run32(num, fuel)
  {
    var numIter, lNum: nat := 0, num;
    var equal, ascNum, dscNum := GetAscDscNum(lNum);
    var rounds := 0;
    while !equal && lNum != KAPREKAR
      invariant rounds <= fuel && numIter == Wrap(rounds)
      invariant CameTo(num, rounds, lNum) && equal == Stuck(lNum)
      invariant !equal ==> Minus32(dscNum, ascNum) == Next32(lNum)
      decreases fuel - rounds
    {
      if rounds == fuel {
        EndOfTheLoop(num, rounds, lNum, fuel);
        return StillRunning;
      }
      RoundOfTheLoop(num, rounds, lNum);
      lNum := Minus32(dscNum, ascNum);
      numIter := CountRound(numIter, rounds);
      rounds := rounds + 1;
      equal, ascNum, dscNum := GetAscDscNum(lNum);
    }
    EndOfTheLoop(num, rounds, lNum, fuel);
    r := if equal then DigitsEqual else Returned(numIter);
  }

  // ---------------------------------------------------------------- no wrap below ten digits

  /** With at most nine digits no intermediate value reaches 2^32 and the next number has at most nine digits too. */
  lemma NoWrap(n: nat)
    requires n < Pow10(9)
    ensures Asc(Padded(n)) <= Dsc(Padded(n)) < Pow10(9) < WORD
    ensures Next32(n) == Next(n) < Pow10(9)
  {
    Extremal(Padded(n), Padded(n));
    DscBelow(n);
    NinePlaces();
    SmallDifference(Asc(Padded(n)), Dsc(Padded(n)));
  }

  lemma SmallDifference(a: nat, d: nat)
    requires a <= d < WORD
    ensures Minus32(Wrap(d), Wrap(a)) == d - a
  {
  }

  lemma DscBelow(n: nat)
    requires n < Pow10(9)
    ensures Dsc(Padded(n)) < Pow10(9)
  {
    var v := Padded(n);
    var r := Reverse(SortDesc(v));
    DigitCountBelow(n, 9);
    FourDigits(n);
    ExtremesAttained(v);
    PermutationDigits(v, r);
    MakeBound(r);
    Pow10Grows(|v|, 9);
  }

  lemma NinePlaces()
    ensures Pow10(9) == 1_000_000_000
  {
    assert Pow10(3) == 1000 by { assert Pow10(1) == 10; }
    assert Pow10(5) == 100000;
    assert Pow10(7) == 10000000;
  }

  predicate NineDigits(n: nat) {
    n < Pow10(9)
  }

  /** So up to nine digits the two loops do the same. */
  lemma NineDigitRuns(n: nat, fuel: nat)
    requires NineDigits(n)
    ensures Run32(n, fuel) == WrapOutcome(Run(n, fuel))
  {
    forall m: nat | NineDigits(m) ensures Next32(m) == Next(m) && NineDigits(Next32(m)) {
      NoWrap(m);
    }
    IterateAgrees(Stuck, Next32, Next, NineDigits, n, 0, fuel);
  }
}

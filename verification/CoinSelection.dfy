/** Choosing coins to pay an amount, with or without change. */
module CoinSelection {
  import opened Denominations
  import opened Powers

  // A denomination is its position in the list of values, and -1 for none. A do-while loop whose body repeats its
  // condition is written as a while loop.

  // ---------------------------------------------------------------------------
  // Greedy payment as loops
  // ---------------------------------------------------------------------------

  /** Takes coins of one value while the amount is not below it. */
  method TakeCoins(amount: int, value: nat, held: nat) returns (taken: nat, rest: int)
    requires value > 0
    ensures taken == Taken(amount, value, held) && rest == amount - Mul(taken, value)
  {
    taken, rest := 0, amount;
    while rest >= value && taken < held
      invariant taken <= held && Taken(amount, value, held) == taken + Taken(rest, value, held - taken)
      invariant rest == amount - Mul(taken, value)
      decreases held - taken
    {
      taken := taken + 1;
      rest := rest - value;
    }
  }

  method GetSpendCoins(v: seq<nat>, nValueTarget: int, held: Counts) returns (used: Counts)
    requires |held| == |v| && Positive(v)
    ensures used == Greedy(v, held, nValueTarget)
  {
    ghost var all := Greedy(v, held, nValueTarget);
    used := None(|v|);
    var nRemainingValue := nValueTarget;
    var i := |v|;
    while i > 0
      invariant 0 <= i <= |v| == |used|
      invariant Starts(all, GreedyTo(v, held, i, nRemainingValue))
      invariant forall j :: i <= j < |v| ==> used[j] == all[j]
    {
      i := i - 1;
      var taken, rest := TakeCoins(nRemainingValue, v[i], held[i]);
      GreedyMove(v, held, i, nRemainingValue, taken, all);
      used := used[i := taken];
      nRemainingValue := rest;
    }
  }

  /** Takes coins of one value without limit. */
  method TakeChange(amount: int, value: nat) returns (taken: nat, rest: int)
    requires value > 0
    ensures taken == Taken(amount, value, Enough(amount)) && rest == amount - Mul(taken, value)
  {
    taken, rest := 0, amount;
    ghost var limit := Enough(amount);
    while rest >= value
      invariant taken <= limit && rest <= limit - taken
      invariant Taken(amount, value, limit) == taken + Taken(rest, value, limit - taken)
      invariant rest == amount - Mul(taken, value)
    {
      taken := taken + 1;
      rest := rest - value;
    }
  }

  method GetChange(v: seq<nat>, nValueTarget: int) returns (change: Counts)
    requires Positive(v)
    ensures change == Change(v, nValueTarget)
  {
    ghost var all := Change(v, nValueTarget);
    change := None(|v|);
    var nRemainingValue := nValueTarget;
    var i := |v|;
    while i > 0
      invariant 0 <= i <= |v| == |change|
      invariant Starts(all, ChangeTo(v, i, nRemainingValue))
      invariant forall j :: i <= j < |v| ==> change[j] == all[j]
    {
      i := i - 1;
      var taken, rest := TakeChange(nRemainingValue, v[i]);
      StartsLess(all, ChangeTo(v, i, rest), taken);
      change := change[i := taken];
      nRemainingValue := rest;
    }
  }

  method GetNumberOfCoinsUsed(counts: Counts) returns (n: nat)
    ensures n == Coins(counts)
  {
    n := 0;
    for i := 0 to |counts|
      invariant n == CoinsTo(counts, i)
    {
      n := n + counts[i];
    }
  }

  /** The highest denomination held at or below a position. */
  function HighestHeld(held: Counts, n: nat): (d: int)
    requires n <= |held|
    ensures -1 <= d < n
  {
    if n == 0 then -1 else if held[n - 1] > 0 then n - 1 else HighestHeld(held, n - 1)
  }

  lemma {:induction false} HighestIs(held: Counts, n: nat)
    requires n <= |held|
    ensures var d := HighestHeld(held, n); (d >= 0 ==> held[d] > 0) && forall i :: d < i < n ==> held[i] == 0
  {
    if n > 0 && held[n - 1] == 0 { HighestIs(held, n - 1); }
  }

  /** getMaxDenomHeld, and getNextLowerDenomHeld for the denominations below `n`. */
  method FindHighestHeld(held: Counts, n: nat) returns (d: int)
    requires n <= |held|
    ensures d == HighestHeld(held, n)
  {
    d := n - 1;
    while d >= 0 && held[d] == 0
      invariant -1 <= d < n && HighestHeld(held, n) == HighestHeld(held, d + 1)
    {
      d := d - 1;
    }
  }

  // ---------------------------------------------------------------------------
  // minimizeChange
  // ---------------------------------------------------------------------------

  /** Only the denominations up to `top`. */
  function UpTo(held: Counts, top: int): (c: Counts)
    ensures |c| == |held| && forall i :: 0 <= i < |held| ==> c[i] == if i <= top then held[i] else 0
  {
    seq(|held|, i requires 0 <= i < |held| => if i <= top then held[i] else 0)
  }

  /** The first stage: coins up to denomination `top`, worth less than the target. */
  function Approach(v: seq<nat>, held: Counts, target: int, top: int): (c: Counts)
    requires |held| <= |v|
    ensures |c| == |held|
  {
    Greedy(v, UpTo(held, top), target - 1)
  }

  /** The lowest denomination from `i` on that exceeds the remaining value and has a coin left, or -1; the search ends
      at once when the remaining value is negative. */
  function LowestOver(v: seq<nat>, held: Counts, used: Counts, rest: int, i: nat): (d: int)
    requires |held| == |used| == |v| && i <= |v|
    ensures d == -1 || (i <= d < |v| && v[d] > rest && used[d] < held[d])
    decreases |v| - i
  {
    if i == |v| then -1
    else if v[i] > rest && used[i] < held[i] then i
    else if rest < 0 then -1
    else LowestOver(v, held, used, rest, i + 1)
  }

  function AddCoin(c: Counts, d: int): (r: Counts)
    requires -1 <= d < |c|
    ensures |r| == |c|
  {
    if d == -1 then c else c[d := c[d] + 1]
  }

  /** The second stage: one more coin, the lowest that exceeds what remains. */
  function Topped(v: seq<nat>, held: Counts, target: int, c: Counts): (r: Counts)
    requires |held| == |c| == |v|
    ensures |r| == |c|
  {
    AddCoin(c, LowestOver(v, held, c, target - Value(v, c), 0))
  }

  /** The third stage: without the coins that would come back as change. */
  function Trimmed(v: seq<nat>, target: int, c: Counts): (r: Counts)
    requires |c| == |v|
    ensures |r| == |c|
  {
    Minus(c, Change(v, Value(v, c) - target))
  }

  /** What the proposal of minimizeChange is worth. */
  function AltAmount(v: seq<nat>, held: Counts, target: int, top: int): nat
    requires |held| == |v|
  {
    Value(v, Trimmed(v, target, Topped(v, held, target, Approach(v, held, target, top))))
  }

  /** The outcome is the fewest coins worth `amount`, if they make less change and are allowed, and else what was
      there before. */
  ghost predicate Chosen(v: seq<nat>, target: int, held: Counts, base: Counts, n: int, amount: nat, allowed: bool,
                         r: int, used: Counts)
    requires |held| == |v|
  {
    if Coins(Change(v, amount - target)) < n && allowed
    then r == Coins(Change(v, amount - target)) && used == Greedy(v, held, amount)
    else r == n && used == base
  }

  method FirstStage(v: seq<nat>, held: Counts, target: int, top: int) returns (used: Counts, rest: int)
    requires |held| == |v| && Positive(v)
    ensures used == Approach(v, held, target, top) && rest == target - Value(v, used)
  {
    ghost var limits := UpTo(held, top);
    ghost var all := Greedy(v, limits, target - 1);
    used, rest := None(|v|), target;
    var i := |v|;
    while i > 0
      invariant 0 <= i <= |v| == |used|
      invariant Starts(all, GreedyTo(v, limits, i, rest - 1))
      invariant GreedyRest(v, limits, |v|, target - 1) == GreedyRest(v, limits, i, rest - 1)
      invariant forall j :: i <= j < |v| ==> used[j] == all[j]
    {
      i := i - 1;
      var taken, left := 0, rest;
      if i <= top {
        taken, left := TakeBelow(rest, v[i], held[i]);
      }
      GreedyMove(v, limits, i, rest - 1, taken, all);
      used := used[i := taken];
      rest := left;
    }
    GreedyRestIs(v, limits, |v|, target - 1);
  }

  /** Takes coins of one value while the amount is above it. */
  method TakeBelow(amount: int, value: nat, held: nat) returns (taken: nat, rest: int)
    requires value > 0
    ensures taken == Taken(amount - 1, value, held) && rest == amount - Mul(taken, value)
  {
    taken, rest := 0, amount;
    while rest > value && taken < held
      invariant taken <= held && Taken(amount - 1, value, held) == taken + Taken(rest - 1, value, held - taken)
      invariant rest == amount - Mul(taken, value)
      decreases held - taken
    {
      taken := taken + 1;
      rest := rest - value;
    }
  }

  method SecondStage(v: seq<nat>, held: Counts, used0: Counts, rest0: int) returns (used: Counts, rest: int)
    requires |held| == |used0| == |v|
    ensures var d := LowestOver(v, held, used0, rest0, 0);
            used == AddCoin(used0, d) && rest == rest0 - if d == -1 then 0 else v[d]
  {
    used, rest := used0, rest0;
    var i := 0;
    while i < |v|
      invariant i <= |v| && used == used0 && rest == rest0
      invariant LowestOver(v, held, used0, rest0, 0) == LowestOver(v, held, used0, rest0, i)
    {
      if v[i] > rest && used[i] < held[i] {
        used := used[i := used[i] + 1];
        rest := rest - v[i];
      }
      if rest < 0 {
        return;
      }
      i := i + 1;
    }
  }

  /** minimizeChange; `used0` is mapOfDenomsUsed on entry. */
  method MinimizeChange(v: seq<nat>, nMaxNumberOfSpends: int, nChangeCount: int, nextToMaxDenom: int,
                        nValueTarget: int, held: Counts, used0: Counts) returns (r: int, used: Counts)
    requires |held| == |v| && Positive(v) && -1 <= nextToMaxDenom < |v|
    ensures var amount := AltAmount(v, held, nValueTarget, nextToMaxDenom);
            Chosen(v, nValueTarget, held, used0, nChangeCount, amount,
                   Coins(Greedy(v, held, amount)) <= nMaxNumberOfSpends, r, used)
  {
    var amountUsed := AlternativeAmount(v, held, nValueTarget, nextToMaxDenom);
    used := GetSpendCoins(v, amountUsed, held);
    var nCoinCount := GetNumberOfCoinsUsed(used);
    var mapAltChange := GetChange(v, amountUsed - nValueTarget);
    var altChangeCount := GetNumberOfCoinsUsed(mapAltChange);
    if altChangeCount < nChangeCount && nCoinCount <= nMaxNumberOfSpends {
      return altChangeCount, used;
    } else {
      return nChangeCount, used0;
    }
  }

  /** The first three stages of minimizeChange. */
  method AlternativeAmount(v: seq<nat>, held: Counts, nValueTarget: int, nextToMaxDenom: int)
    returns (amountUsed: nat)
    requires |held| == |v| && Positive(v) && -1 <= nextToMaxDenom < |v|
    ensures amountUsed == AltAmount(v, held, nValueTarget, nextToMaxDenom)
  {
    var used, nRemainingValue := FirstStage(v, held, nValueTarget, nextToMaxDenom);
    AddCoinValue(v, used, LowestOver(v, held, used, nRemainingValue, 0));
    used, nRemainingValue := SecondStage(v, held, used, nRemainingValue);
    amountUsed := nValueTarget - nRemainingValue;
    var mapAltChange := GetChange(v, amountUsed - nValueTarget);
    used, amountUsed := RemoveOverlap(v, used, mapAltChange, amountUsed);
  }

  lemma {:induction false} AddCoinValue(v: seq<nat>, c: Counts, d: int)
    requires |c| <= |v| && -1 <= d < |c|
    ensures Value(v, AddCoin(c, d)) == Value(v, c) + if d == -1 then 0 else v[d]
  {
    if d >= 0 { OneMore(v, c, d); }
  }

  /** The loop that cancels coins against change. */
  method RemoveOverlap(v: seq<nat>, used0: Counts, change0: Counts, amount0: nat) returns (used: Counts, amount: nat)
    requires |used0| == |change0| == |v| && amount0 == Value(v, used0)
    ensures used == Minus(used0, change0) && amount == Value(v, used)
  {
    used, amount := used0, amount0;
    for i := 0 to |v|
      invariant |used| == |v| && amount == Value(v, used)
      invariant forall j :: 0 <= j < |v| ==> used[j] == if j < i then Cancelled(used0[j], change0[j]) else used0[j]
    {
      used, amount := CancelCoin(v, used, i, change0[i], amount);
    }
    assert used == Minus(used0, change0);
  }

  function Cancelled(used: nat, change: nat): nat {
    if used < change then 0 else used - change
  }

  method CancelCoin(v: seq<nat>, used0: Counts, i: nat, change0: nat, amount0: nat)
    returns (used: Counts, amount: nat)
    requires i < |v| == |used0| && amount0 == Value(v, used0)
    ensures used == used0[i := Cancelled(used0[i], change0)] && amount == Value(v, used)
  {
    used, amount := used0, amount0;
    var change := change0;
    while change > 0 && used[i] > 0
      invariant |used| == |v| && amount == Value(v, used) && used == used0[i := used[i]]
      invariant Cancelled(used[i], change) == Cancelled(used0[i], change0)
      decreases change
    {
      var less := used[i := used[i] - 1];
      OneMore(v, less, i);
      assert less[i := less[i] + 1] == used;
      used := less;
      change := change - 1;
      amount := amount - v[i];
    }
  }

  // ---------------------------------------------------------------------------
  // calculateChange
  // ---------------------------------------------------------------------------

  /** The lowest denomination from `i` on that is held and exceeds the target, or -1. */
  function MinOver(v: seq<nat>, held: Counts, target: int, i: nat): (d: int)
    requires |held| == |v| && i <= |v|
    ensures d == -1 || (i <= d < |v| && target < v[d] && held[d] > 0)
    decreases |v| - i
  {
    if i == |v| then -1 else if target < v[i] && held[i] > 0 then i else MinOver(v, held, target, i + 1)
  }

  /** How many coins of value `v` a loop takes that stops once the amount is used up. */
  function TakenOver(amount: int, v: nat, held: nat): (g: nat)
    ensures g <= held
  {
    if amount > 0 && held > 0 then 1 + TakenOver(amount - v, v, held - 1) else 0
  }

  /** Coins of the first `n` denominations, from the highest down until the amount is covered. */
  function CoverTo(v: seq<nat>, held: Counts, n: nat, amount: int): (c: Counts)
    requires n <= |held| && n <= |v|
    ensures |c| == n
  {
    if n == 0 then []
    else
      var g := TakenOver(amount, v[n - 1], held[n - 1]);
      CoverTo(v, held, n - 1, amount - Mul(g, v[n - 1])) + [g]
  }

  function Cover(v: seq<nat>, held: Counts, amount: int): (c: Counts)
    requires |held| <= |v|
    ensures |c| == |held|
  {
    CoverTo(v, held, |held|, amount)
  }

  /** What is left to cover, or the negated overpayment. */
  function CoverRest(v: seq<nat>, held: Counts, n: nat, amount: int): int
    requires n <= |held| && n <= |v|
  {
    if n == 0 then amount
    else CoverRest(v, held, n - 1, amount - Mul(TakenOver(amount, v[n - 1], held[n - 1]), v[n - 1]))
  }

  lemma {:induction false} CoverStep(v: seq<nat>, held: Counts, n: nat, amount: int)
    returns (g: nat, rest: int, low: Counts)
    requires n < |held| && n < |v| && Positive(v)
    ensures g == TakenOver(amount, v[n], held[n]) <= held[n] && rest == amount - Mul(g, v[n])
    ensures g == held[n] || rest <= 0
    ensures low == CoverTo(v, held, n, rest) && CoverTo(v, held, n + 1, amount) == low + [g]
    ensures Value(v, low + [g]) == Value(v, low) + Mul(g, v[n])
  {
    g := TakenOver(amount, v[n], held[n]);
    TakenOverEnough(amount, v[n], held[n]);
    rest := amount - Mul(g, v[n]);
    low := CoverTo(v, held, n, rest);
    LastCoins(v, low, g);
  }

  lemma {:induction false} TakenOverEnough(amount: int, v: nat, held: nat)
    ensures var g := TakenOver(amount, v, held); g == held || amount - Mul(g, v) <= 0
  {
    if amount > 0 && held > 0 { TakenOverEnough(amount - v, v, held - 1); }
  }

  lemma {:induction false} CoverRestIs(v: seq<nat>, held: Counts, n: nat, amount: int)
    requires n <= |held| && n <= |v| && Positive(v)
    ensures CoverRest(v, held, n, amount) == amount - Value(v, CoverTo(v, held, n, amount))
  {
    if n > 0 {
      var g, rest, low := CoverStep(v, held, n - 1, amount);
      CoverRestIs(v, held, n - 1, rest);
    }
  }

  /** The branch of calculateChange where coin `d` exceeds the target. */
  ghost predicate ChosenOne(v: seq<nat>, nMax: int, fMinimizeChange: bool, target: int, held: Counts, d: nat,
                            r: int, used: Counts)
    requires |held| == |v| && d < |v|
  {
    var amount := AltAmount(v, held, target, HighestHeld(held, d));
    Chosen(v, target, held, AddCoin(None(|v|), d), Coins(Change(v, v[d] - target)), amount,
           fMinimizeChange && Coins(Greedy(v, held, amount)) <= nMax, r, used)
  }

  /** The branch where several coins `c` cover the target. */
  ghost predicate ChosenMany(v: seq<nat>, nMax: int, fMinimizeChange: bool, target: int, held: Counts, c: Counts,
                             r: int, used: Counts)
    requires |held| == |c| == |v|
  {
    var amount := AltAmount(v, held, target, HighestHeld(held, |v|));
    var coins := Coins(Greedy(v, held, amount));
    Chosen(v, target, held, c, Coins(Change(v, Value(v, c) - target)), amount,
           coins <= nMax && (fMinimizeChange || coins <= Coins(c)), r, used)
  }

  /** calculateChange: the number of coins in change, and the coins to use. */
  ghost predicate Choice(v: seq<nat>, nMax: int, fMinimizeChange: bool, target: int, held: Counts, r: int, used: Counts)
    requires |held| == |v|
  {
    var d := MinOver(v, held, target, 0);
    if d != -1 then ChosenOne(v, nMax, fMinimizeChange, target, held, d, r, used)
    else ChosenMany(v, nMax, fMinimizeChange, target, held, Cover(v, held, target), r, used)
  }

  method CoverTarget(v: seq<nat>, held: Counts, target: int) returns (used: Counts, amount: nat, n: nat)
    requires |held| == |v| && Positive(v)
    ensures used == Cover(v, held, target) && amount == Value(v, used) && n == Coins(used)
  {
    ghost var all := Cover(v, held, target);
    used, amount, n := None(|v|), 0, 0;
    var rest := target;
    var i := |v|;
    while i > 0
      invariant 0 <= i <= |v| == |used| && rest == target - amount
      invariant Starts(all, CoverTo(v, held, i, rest))
      invariant CoverRest(v, held, |v|, target) == CoverRest(v, held, i, rest)
      invariant forall j :: i <= j < |v| ==> used[j] == all[j]
      invariant n + CoinsTo(all, i) == Coins(all)
    {
      i := i - 1;
      var taken, left := TakeOver(rest, v[i], held[i]);
      StartsLess(all, CoverTo(v, held, i, left), taken);
      used := used[i := taken];
      amount := target - left;
      n := n + taken;
      rest := left;
    }
    assert used == all;
    CoverRestIs(v, held, |v|, target);
  }

  method TakeOver(amount: int, value: nat, held: nat) returns (taken: nat, rest: int)
    ensures taken == TakenOver(amount, value, held) && rest == amount - Mul(taken, value)
  {
    taken, rest := 0, amount;
    while rest > 0 && taken < held
      invariant taken <= held && TakenOver(amount, value, held) == taken + TakenOver(rest, value, held - taken)
      invariant rest == amount - Mul(taken, value)
      decreases held - taken
    {
      taken := taken + 1;
      rest := rest - value;
    }
  }

  method FindMinOver(v: seq<nat>, held: Counts, nValueTarget: int) returns (d: int)
    requires |held| == |v|
    ensures d == MinOver(v, held, nValueTarget, 0)
  {
    for i := 0 to |v|
      invariant MinOver(v, held, nValueTarget, 0) == MinOver(v, held, nValueTarget, i)
    {
      if nValueTarget < v[i] && held[i] > 0 {
        return i;
      }
    }
    return -1;
  }

  method CalculateChange(v: seq<nat>, nMaxNumberOfSpends: int, fMinimizeChange: bool, nValueTarget: int,
                         held: Counts) returns (r: int, used: Counts)
    requires |held| == |v| > 0 && Chain(v)
    ensures Choice(v, nMaxNumberOfSpends, fMinimizeChange, nValueTarget, held, r, used)
    ensures Calculated(v, nMaxNumberOfSpends, fMinimizeChange, nValueTarget, held, r, used)
    ensures forall d :: IsLowestOver(v, held, nValueTarget, d) ==>
              && r <= Coins(Change(v, v[d] - nValueTarget))
              && (!fMinimizeChange ==> IsOne(used, d) && |used| == |v|)
    ensures if Value(v, held) >= nValueTarget then Covers(v, held, nValueTarget, used, r) else used == held && r == 0
  {
    var minDenomOverTarget := FindMinOver(v, held, nValueTarget);
    if minDenomOverTarget != -1 {
      r, used := CalculateWithOne(v, nMaxNumberOfSpends, fMinimizeChange, nValueTarget, held, minDenomOverTarget);
    } else {
      r, used := CalculateWithMany(v, nMaxNumberOfSpends, fMinimizeChange, nValueTarget, held);
    }
    ChoiceCovers(v, nMaxNumberOfSpends, fMinimizeChange, nValueTarget, held, r, used);
    ChoiceIs(v, nMaxNumberOfSpends, fMinimizeChange, nValueTarget, held, r, used);
    forall d | IsLowestOver(v, held, nValueTarget, d)
      ensures r <= Coins(Change(v, v[d] - nValueTarget)) && (!fMinimizeChange ==> IsOne(used, d) && |used| == |v|)
    {
      LowestCoinUsed(v, nMaxNumberOfSpends, fMinimizeChange, nValueTarget, held, r, used, d);
    }
  }

  // ---------------------------------------------------------------------------
  // The choice, described without the searches
  // ---------------------------------------------------------------------------

  /** A held coin worth more than the target, and none that is held is a lower such coin. */
  ghost predicate IsLowestOver(v: seq<nat>, held: Counts, target: int, d: int)
    requires |held| == |v|
  {
    && 0 <= d < |v| && held[d] > 0 && v[d] > target
    && forall i :: 0 <= i < |v| && held[i] > 0 && v[i] > target ==> v[d] <= v[i]
  }

  ghost predicate NoneOver(v: seq<nat>, held: Counts, target: int)
    requires |held| == |v|
  {
    forall i :: 0 <= i < |v| && held[i] > 0 ==> v[i] <= target
  }

  lemma {:induction false} MinOverFrom(v: seq<nat>, held: Counts, target: int, i: nat)
    requires |held| == |v| && i <= |v| && Chain(v) && forall j :: 0 <= j < i && held[j] > 0 ==> v[j] <= target
    ensures var d := MinOver(v, held, target, i);
            if d == -1 then NoneOver(v, held, target) else IsLowestOver(v, held, target, d)
    decreases |v| - i
  {
    if i < |v| && !(target < v[i] && held[i] > 0) { MinOverFrom(v, held, target, i + 1); }
  }

  /** One coin of one denomination. */
  ghost predicate IsOne(c: Counts, d: int) {
    forall i :: 0 <= i < |c| ==> c[i] == if i == d then 1 else 0
  }

  /** The held coins from the highest down until the first `n` denominations cover the amount: a coin is taken only when
      all higher ones are, all are taken if they are too few, and without the lowest one taken they are too few. */
  ghost predicate FromTheTop(v: seq<nat>, held: Counts, n: nat, amount: int, c: Counts)
    requires n <= |v|
  {
    && Within(c, held, n)
    && (forall i, j :: 0 <= i < j < n && c[i] > 0 ==> c[j] == held[j])
    && (ValueTo(v, held, n) < amount ==> forall i :: 0 <= i < n ==> c[i] == held[i])
    && (ValueTo(v, held, n) >= amount ==> Value(v, c) >= amount)
    && forall d :: 0 <= d < n && c[d] > 0 && (forall i :: 0 <= i < d ==> c[i] == 0) ==> Value(v, c) - v[d] < amount
  }

  lemma {:induction false} CoverFromTheTop(v: seq<nat>, held: Counts, n: nat, amount: int)
    requires n <= |held| && n <= |v| && Positive(v)
    ensures FromTheTop(v, held, n, amount, CoverTo(v, held, n, amount))
  {
    CoverReaches(v, held, n, amount);
    CoverWithin(v, held, n, amount);
    if n > 0 {
      var g, rest, low := CoverStep(v, held, n - 1, amount);
      CoverFromTheTop(v, held, n - 1, rest);
      TakenOverNeeded(amount, v[n - 1], held[n - 1]);
      if rest <= 0 { CoverNone(v, held, n - 1, rest); }
      TopAndLow(v, held, n - 1, n, amount, rest, low, g);
    }
  }

  lemma {:induction false} TopAndLow(v: seq<nat>, held: Counts, n: nat, next: nat, amount: int, rest: int, low: Counts,
                                     g: nat)
    requires next == n + 1 <= |held| && next <= |v| && FromTheTop(v, held, n, rest, low)
    requires g <= held[n] && rest == amount - Mul(g, v[n]) && (g == held[n] || rest <= 0)
    requires (g > 0 ==> rest + v[n] > 0) && (rest <= 0 ==> forall i :: 0 <= i < n ==> low[i] == 0)
    requires Value(v, low + [g]) == Value(v, low) + Mul(g, v[n])
    ensures var c := low + [g];
            && (forall i, j :: 0 <= i < j < next && c[i] > 0 ==> c[j] == held[j])
            && forall d :: 0 <= d < next && c[d] > 0 && (forall i :: 0 <= i < d ==> c[i] == 0) ==>
                 Value(v, c) - v[d] < amount
  {
    var c := low + [g];
    forall d | 0 <= d < next && c[d] > 0 && (forall i :: 0 <= i < d ==> c[i] == 0)
      ensures Value(v, c) - v[d] < amount
    {
      LowestNeeded(v, held, n, amount, rest, low, g, c, d);
    }
  }

  lemma {:induction false} LowestNeeded(v: seq<nat>, held: Counts, n: nat, amount: int, rest: int, low: Counts, g: nat,
                                        c: Counts, d: nat)
    requires n < |held| && n < |v| && FromTheTop(v, held, n, rest, low) && c == low + [g]
    requires rest == amount - Mul(g, v[n]) && (g > 0 ==> rest + v[n] > 0)
    requires Value(v, c) == Value(v, low) + Mul(g, v[n])
    requires d <= n && c[d] > 0 && forall i :: 0 <= i < d ==> c[i] == 0
    ensures Value(v, c) - v[d] < amount
  {
    if d < n {
      assert low[d] > 0 && forall i :: 0 <= i < d ==> low[i] == c[i];
    } else {
      assert forall i :: 0 <= i < n ==> low[i] == c[i];
      NoneValue(v, low, n);
    }
  }

  lemma {:induction false} CoverNone(v: seq<nat>, held: Counts, n: nat, amount: int)
    requires n <= |held| && n <= |v| && amount <= 0
    ensures forall i :: 0 <= i < n ==> CoverTo(v, held, n, amount)[i] == 0
  {
    if n > 0 { CoverNone(v, held, n - 1, amount); }
  }

  lemma {:induction false} TakenOverNeeded(amount: int, v: nat, held: nat)
    ensures var g := TakenOver(amount, v, held); g > 0 ==> amount - Mul(g, v) + v > 0
  {
    if amount > 0 && held > 0 { TakenOverNeeded(amount - v, v, held - 1); }
  }

  /** Coins of the denominations up to `top` worth the most below the target, and as few as possible. */
  ghost predicate IsClosest(v: seq<nat>, held: Counts, target: int, top: int, c: Counts)
    requires |held| == |v|
  {
    && AtMost(c, UpTo(held, top)) && Value(v, c) <= (if target <= 0 then 0 else target - 1)
    && (forall d :: AtMost(d, UpTo(held, top)) && Value(v, d) < target ==> Value(v, d) <= Value(v, c))
    && (forall d :: AtMost(d, UpTo(held, top)) && Value(v, d) == Value(v, c) ==> Coins(c) <= Coins(d))
  }

  lemma {:induction false} ApproachIsClosest(v: seq<nat>, held: Counts, target: int, top: int)
    requires |held| == |v| && Chain(v)
    ensures IsClosest(v, held, target, top, Approach(v, held, target, top))
  {
    var limits := UpTo(held, top);
    var c := Approach(v, held, target, top);
    GreedyBelow(v, limits, |held|, target - 1);
    GreedyAtMost(v, limits, target - 1);
    forall d | AtMost(d, limits) && Value(v, d) < target ensures Value(v, d) <= Value(v, c) {
      PayableBy(v, limits, d, Value(v, d));
      GreedyLargest(v, limits, target - 1, Value(v, d));
    }
    forall d | AtMost(d, limits) && Value(v, d) == Value(v, c) ensures Coins(c) <= Coins(d) {
      if target - 1 >= 0 {
        GreedySettled(v, limits, |held|, target - 1, Value(v, c));
        GreedyFewest(v, limits, Value(v, c), d);
      } else {
        NoCoins(v, limits, |held|, target - 1);
      }
    }
  }

  lemma {:induction false} NoCoins(v: seq<nat>, held: Counts, n: nat, amount: int)
    requires n <= |held| && n <= |v| && Positive(v) && amount < 0
    ensures Coins(GreedyTo(v, held, n, amount)) == 0
  {
    if n > 0 {
      var g, rest, low := GreedyStep(v, held, n - 1, amount);
      NoCoins(v, held, n - 1, rest);
    }
  }

  /** The lowest coin that is left and exceeds the rest, or none; when the rest is already negative, only the lowest
      denomination is considered. */
  ghost predicate IsNextCoin(v: seq<nat>, held: Counts, c: Counts, rest: int, d: int)
    requires |held| == |c| == |v| > 0
  {
    if rest < 0 then d == if c[0] < held[0] then 0 else -1
    else if d == -1 then forall i :: 0 <= i < |v| && c[i] < held[i] ==> v[i] <= rest
    else && 0 <= d < |v| && c[d] < held[d] && v[d] > rest
         && forall i :: 0 <= i < |v| && c[i] < held[i] && v[i] > rest ==> v[d] <= v[i]
  }

  lemma {:induction false} LowestOverFrom(v: seq<nat>, held: Counts, c: Counts, rest: int, i: nat)
    requires |held| == |c| == |v| > 0 && Chain(v) && i <= |v| && (rest < 0 ==> i == 0)
    requires forall j :: 0 <= j < i && c[j] < held[j] ==> v[j] <= rest
    ensures IsNextCoin(v, held, c, rest, LowestOver(v, held, c, rest, i))
    decreases |v| - i
  {
    if i < |v| && !(v[i] > rest && c[i] < held[i]) && rest >= 0 { LowestOverFrom(v, held, c, rest, i + 1); }
  }

  /** What the proposal is worth: the closest amount below the target, one more coin, less what would come back. */
  ghost predicate IsProposal(v: seq<nat>, held: Counts, target: int, top: int, amount: nat, c: Counts, d: int,
                             topped: Counts, trimmed: Counts)
    requires |held| == |v| > 0
  {
    && IsClosest(v, held, target, top, c) && IsNextCoin(v, held, c, target - Value(v, c), d)
    && |topped| == |v| && (forall i :: 0 <= i < |v| ==> topped[i] == c[i] + if i == d then 1 else 0)
    && IsMinus(trimmed, topped, Change(v, Value(v, topped) - target))
    && amount == Value(v, trimmed)
  }

  lemma {:induction false} AltIsProposal(v: seq<nat>, held: Counts, target: int, top: int)
    returns (c: Counts, d: int, topped: Counts, trimmed: Counts)
    requires |held| == |v| > 0 && Chain(v)
    ensures IsProposal(v, held, target, top, AltAmount(v, held, target, top), c, d, topped, trimmed)
  {
    c := Approach(v, held, target, top);
    ApproachIsClosest(v, held, target, top);
    var rest := target - Value(v, c);
    d := LowestOver(v, held, c, rest, 0);
    LowestOverFrom(v, held, c, rest, 0);
    topped := AddCoin(c, d);
    OneAdded(c, d);
    trimmed := Minus(topped, Change(v, Value(v, topped) - target));
    ProposalParts(v, held, target, top, c, rest, d, topped, trimmed);
  }

  lemma {:induction false} ProposalParts(v: seq<nat>, held: Counts, target: int, top: int, c: Counts, rest: int, d: int,
                                         topped: Counts, trimmed: Counts)
    requires |held| == |c| == |topped| == |v| > 0 && rest == target - Value(v, c)
    requires IsClosest(v, held, target, top, c) && IsNextCoin(v, held, c, rest, d)
    requires forall i :: 0 <= i < |v| ==> topped[i] == c[i] + if i == d then 1 else 0
    requires trimmed == Minus(topped, Change(v, Value(v, topped) - target))
    ensures IsProposal(v, held, target, top, Value(v, trimmed), c, d, topped, trimmed)
  {
  }

  lemma {:induction false} OneAdded(c: Counts, d: int)
    requires -1 <= d < |c|
    ensures forall i :: 0 <= i < |c| ==> AddCoin(c, d)[i] == c[i] + if i == d then 1 else 0
  {
  }

  ghost predicate Proposed(v: seq<nat>, held: Counts, target: int, top: int, amount: nat)
    requires |held| == |v| > 0
  {
    exists c, d, topped, trimmed :: IsProposal(v, held, target, top, amount, c, d, topped, trimmed)
  }

  /** The highest held denomination below `n`. */
  ghost predicate IsHighestHeld(held: Counts, n: nat, top: int)
    requires n <= |held|
  {
    -1 <= top < n && (top >= 0 ==> held[top] > 0) && forall i :: top < i < n ==> held[i] == 0
  }

  /** The coins to start from: one lowest coin over the target, if there is one, or else coins from the top. */
  ghost predicate IsBase(v: seq<nat>, held: Counts, target: int, base: Counts, top: int)
    requires |held| == |v|
  {
    |base| == |v|
    && if NoneOver(v, held, target)
       then FromTheTop(v, held, |v|, target, base) && IsHighestHeld(held, |v|, top)
       else exists d :: IsLowestOver(v, held, target, d) && IsOne(base, d) && IsHighestHeld(held, d, top)
  }

  /** calculateChange: the coins to start from, unless the proposal makes less change, needs few enough coins, and
      either change is to be minimized or there are several coins to start from and it needs no more. */
  ghost predicate BestOf(v: seq<nat>, nMax: int, fMinimizeChange: bool, target: int, held: Counts, r: int, used: Counts,
                         base: Counts, top: int, amount: nat)
    requires |held| == |v| > 0
  {
    && IsBase(v, held, target, base, top) && Proposed(v, held, target, top, amount)
    && var n, alt := Coins(Change(v, Value(v, base) - target)), Greedy(v, held, amount);
       if Coins(Change(v, amount - target)) < n && Coins(alt) <= nMax
          && (fMinimizeChange || (NoneOver(v, held, target) && Coins(alt) <= Coins(base)))
       then r == Coins(Change(v, amount - target)) && used == alt
       else r == n && used == base
  }

  ghost predicate Calculated(v: seq<nat>, nMax: int, fMinimizeChange: bool, target: int, held: Counts, r: int,
                             used: Counts)
    requires |held| == |v| > 0
  {
    exists base, top, amount :: BestOf(v, nMax, fMinimizeChange, target, held, r, used, base, top, amount)
  }

  lemma {:induction false} ChoiceIs(v: seq<nat>, nMax: int, fMinimizeChange: bool, target: int, held: Counts, r: int,
                                    used: Counts)
    requires |held| == |v| > 0 && Chain(v) && Choice(v, nMax, fMinimizeChange, target, held, r, used)
    ensures Calculated(v, nMax, fMinimizeChange, target, held, r, used)
  {
    MinOverFrom(v, held, target, 0);
    var d := MinOver(v, held, target, 0);
    if d != -1 {
      ChoiceOfOne(v, nMax, fMinimizeChange, target, held, r, used, d);
    } else {
      ChoiceOfMany(v, nMax, fMinimizeChange, target, held, r, used);
    }
  }

  lemma {:induction false} ChoiceOfOne(v: seq<nat>, nMax: int, fMinimizeChange: bool, target: int, held: Counts, r: int,
                                       used: Counts, d: nat)
    requires |held| == |v| > 0 && Chain(v) && IsLowestOver(v, held, target, d)
    requires ChosenOne(v, nMax, fMinimizeChange, target, held, d, r, used)
    ensures Calculated(v, nMax, fMinimizeChange, target, held, r, used)
  {
    var top, base := HighestHeld(held, d), AddCoin(None(|v|), d);
    OneIsBase(v, held, target, d, base, top);
    AltProposed(v, held, target, top);
    ChosenIsBest(v, nMax, fMinimizeChange, target, held, r, used, base, top, AltAmount(v, held, target, top), d);
  }

  lemma {:induction false} AltProposed(v: seq<nat>, held: Counts, target: int, top: int)
    requires |held| == |v| > 0 && Chain(v)
    ensures Proposed(v, held, target, top, AltAmount(v, held, target, top))
  {
    var _, _, _, _ := AltIsProposal(v, held, target, top);
  }

  lemma {:induction false} OneIsBase(v: seq<nat>, held: Counts, target: int, d: nat, base: Counts, top: int)
    requires |held| == |v| && IsLowestOver(v, held, target, d)
    requires base == AddCoin(None(|v|), d) && top == HighestHeld(held, d)
    ensures IsBase(v, held, target, base, top) && Value(v, base) == v[d] && !NoneOver(v, held, target)
  {
    HighestIs(held, d);
    NoneValue(v, None(|v|), |v|);
    OneMore(v, None(|v|), d);
    assert IsOne(base, d) && IsHighestHeld(held, d, top);
  }

  lemma {:induction false} ChosenIsBest(v: seq<nat>, nMax: int, fMinimizeChange: bool, target: int, held: Counts,
                                        r: int, used: Counts, base: Counts, top: int, amount: nat, d: nat)
    requires |held| == |v| > 0 && d < |v| && base == AddCoin(None(|v|), d) && Value(v, base) == v[d]
    requires IsBase(v, held, target, base, top) && Proposed(v, held, target, top, amount) && !NoneOver(v, held, target)
    requires Chosen(v, target, held, base, Coins(Change(v, v[d] - target)), amount,
                    fMinimizeChange && Coins(Greedy(v, held, amount)) <= nMax, r, used)
    ensures Calculated(v, nMax, fMinimizeChange, target, held, r, used)
  {
    assert BestOf(v, nMax, fMinimizeChange, target, held, r, used, base, top, amount);
  }

  lemma {:induction false} ChoiceOfMany(v: seq<nat>, nMax: int, fMinimizeChange: bool, target: int, held: Counts,
                                        r: int, used: Counts)
    requires |held| == |v| > 0 && Chain(v) && NoneOver(v, held, target)
    requires ChosenMany(v, nMax, fMinimizeChange, target, held, Cover(v, held, target), r, used)
    ensures Calculated(v, nMax, fMinimizeChange, target, held, r, used)
  {
    var top, base := HighestHeld(held, |v|), Cover(v, held, target);
    ManyIsBase(v, held, target, base, top);
    AltProposed(v, held, target, top);
    var amount := AltAmount(v, held, target, top);
    ChosenManyIs(v, nMax, fMinimizeChange, target, held, base, r, used, amount);
    ChosenManyIsBest(v, nMax, fMinimizeChange, target, held, r, used, base, top, amount);
  }

  lemma {:induction false} ChosenManyIs(v: seq<nat>, nMax: int, fMinimizeChange: bool, target: int, held: Counts,
                                        base: Counts, r: int, used: Counts, amount: nat)
    requires |held| == |v| == |base| && amount == AltAmount(v, held, target, HighestHeld(held, |v|))
    requires ChosenMany(v, nMax, fMinimizeChange, target, held, base, r, used)
    ensures var coins := Coins(Greedy(v, held, amount));
            Chosen(v, target, held, base, Coins(Change(v, Value(v, base) - target)), amount,
                   coins <= nMax && (fMinimizeChange || coins <= Coins(base)), r, used)
  {
  }

  lemma {:induction false} ManyIsBase(v: seq<nat>, held: Counts, target: int, base: Counts, top: int)
    requires |held| == |v| && Positive(v) && NoneOver(v, held, target)
    requires base == Cover(v, held, target) && top == HighestHeld(held, |v|)
    ensures IsBase(v, held, target, base, top)
  {
    HighestIs(held, |v|);
    CoverFromTheTop(v, held, |v|, target);
  }

  lemma {:induction false} ChosenManyIsBest(v: seq<nat>, nMax: int, fMinimizeChange: bool, target: int, held: Counts,
                                            r: int, used: Counts, base: Counts, top: int, amount: nat)
    requires |held| == |v| == |base| > 0 && NoneOver(v, held, target) && IsBase(v, held, target, base, top)
    requires Proposed(v, held, target, top, amount)
    requires var coins := Coins(Greedy(v, held, amount));
             Chosen(v, target, held, base, Coins(Change(v, Value(v, base) - target)), amount,
                    coins <= nMax && (fMinimizeChange || coins <= Coins(base)), r, used)
    ensures Calculated(v, nMax, fMinimizeChange, target, held, r, used)
  {
    assert BestOf(v, nMax, fMinimizeChange, target, held, r, used, base, top, amount);
  }

  /** In particular: with a held coin over the target, and no wish to minimize change, one lowest such coin is used; and
      minimizing never makes more change than it. */
  lemma {:induction false} LowestCoinUsed(v: seq<nat>, nMax: int, fMinimizeChange: bool, target: int, held: Counts,
                                          r: int, used: Counts, d: int)
    requires |held| == |v| > 0 && Chain(v) && Calculated(v, nMax, fMinimizeChange, target, held, r, used)
    requires IsLowestOver(v, held, target, d)
    ensures r <= Coins(Change(v, v[d] - target))
    ensures !fMinimizeChange ==> IsOne(used, d) && |used| == |v| && r == Coins(Change(v, v[d] - target))
  {
    var base, top, amount :| BestOf(v, nMax, fMinimizeChange, target, held, r, used, base, top, amount);
    LowestOfBest(v, nMax, fMinimizeChange, target, held, r, used, d, base, top, amount);
  }

  lemma {:induction false} LowestOfBest(v: seq<nat>, nMax: int, fMinimizeChange: bool, target: int, held: Counts,
                                        r: int, used: Counts, d: int, base: Counts, top: int, amount: nat)
    requires |held| == |v| > 0 && Chain(v) && IsLowestOver(v, held, target, d)
    requires BestOf(v, nMax, fMinimizeChange, target, held, r, used, base, top, amount)
    ensures r <= Coins(Change(v, v[d] - target))
    ensures !fMinimizeChange ==> IsOne(used, d) && |used| == |v| && r == Coins(Change(v, v[d] - target))
  {
    LowestIsBase(v, held, target, base, top, d);
    LowestInBest(v, nMax, fMinimizeChange, target, held, r, used, base, top, amount, Coins(Change(v, v[d] - target)));
  }

  lemma {:induction false} LowestInBest(v: seq<nat>, nMax: int, fMinimizeChange: bool, target: int, held: Counts,
                                        r: int, used: Counts, base: Counts, top: int, amount: nat, n: nat)
    requires |held| == |v| > 0 && !NoneOver(v, held, target) && |base| == |v|
    requires n == Coins(Change(v, Value(v, base) - target))
    requires BestOf(v, nMax, fMinimizeChange, target, held, r, used, base, top, amount)
    ensures r <= n && (!fMinimizeChange ==> used == base && r == n)
  {
  }

  lemma {:induction false} LowestIsBase(v: seq<nat>, held: Counts, target: int, base: Counts, top: int, d: int)
    requires |held| == |v| && Chain(v) && IsBase(v, held, target, base, top) && IsLowestOver(v, held, target, d)
    ensures !NoneOver(v, held, target) && IsOne(base, d) && Value(v, base) == v[d]
  {
    var e :| IsLowestOver(v, held, target, e) && IsOne(base, e) && IsHighestHeld(held, e, top);
    SameLowest(v, held, target, d, e);
    OneWorth(v, base, d);
  }

  lemma {:induction false} SameLowest(v: seq<nat>, held: Counts, target: int, d: int, e: int)
    requires |held| == |v| && Chain(v) && IsLowestOver(v, held, target, d) && IsLowestOver(v, held, target, e)
    ensures d == e
  {
    assert v[d] == v[e];
  }

  lemma {:induction false} OneWorth(v: seq<nat>, c: Counts, d: nat)
    requires |c| == |v| && d < |v| && IsOne(c, d)
    ensures Value(v, c) == v[d]
  {
    var none := None(|v|);
    NoneValue(v, none, |v|);
    OneMore(v, none, d);
    assert c == none[d := none[d] + 1];
  }

  /** A map of zeroes, with one coin set. */
  method OneOf(n: nat, d: nat) returns (used: Counts)
    requires d < n
    ensures used == AddCoin(None(n), d)
  {
    used := None(n);
    used := used[d := 1];
  }

  method CalculateWithOne(v: seq<nat>, nMaxNumberOfSpends: int, fMinimizeChange: bool, nValueTarget: int,
                          held: Counts, minDenomOverTarget: nat) returns (r: int, used: Counts)
    requires |held| == |v| && Positive(v) && minDenomOverTarget < |v|
    ensures ChosenOne(v, nMaxNumberOfSpends, fMinimizeChange, nValueTarget, held, minDenomOverTarget, r, used)
  {
    used := OneOf(|v|, minDenomOverTarget);
    var mapChange := GetChange(v, v[minDenomOverTarget] - nValueTarget);
    var nChangeCount := GetNumberOfCoinsUsed(mapChange);
    if fMinimizeChange {
      var nextToMaxDenom := FindHighestHeld(held, minDenomOverTarget);
      var newChangeCount, alt :=
        MinimizeChange(v, nMaxNumberOfSpends, nChangeCount, nextToMaxDenom, nValueTarget, held, used);
      if newChangeCount < nChangeCount {
        return newChangeCount, alt;
      }
    }
    return nChangeCount, used;
  }

  method CalculateWithMany(v: seq<nat>, nMaxNumberOfSpends: int, fMinimizeChange: bool, nValueTarget: int,
                           held: Counts) returns (r: int, used: Counts)
    requires |held| == |v| && Positive(v)
    ensures ChosenMany(v, nMaxNumberOfSpends, fMinimizeChange, nValueTarget, held, Cover(v, held, nValueTarget), r,
                       used)
  {
    var amountUsed, nCoinCount;
    used, amountUsed, nCoinCount := CoverTarget(v, held, nValueTarget);
    var mapChange := GetChange(v, amountUsed - nValueTarget);
    var nMaxChangeCount := GetNumberOfCoinsUsed(mapChange);
    var maxDenomHeld := FindHighestHeld(held, |v|);
    var nChangeCount, minUsed :=
      MinimizeChange(v, nMaxNumberOfSpends, nMaxChangeCount, maxDenomHeld, nValueTarget, held, used);
    var nNumSpends := GetNumberOfCoinsUsed(minUsed);
    if !fMinimizeChange && nCoinCount < nNumSpends {
      return nMaxChangeCount, used;
    }
    return nChangeCount, minUsed;
  }

  // ---------------------------------------------------------------------------
  // The choice covers the target
  // ---------------------------------------------------------------------------

  /** No coin is left that exceeds what remains. */
  ghost predicate NoneAbove(v: seq<nat>, held: Counts, used: Counts, rest: int)
    requires |used| <= |held| && |used| <= |v|
  {
    forall i :: 0 <= i < |used| && used[i] < held[i] ==> v[i] <= rest
  }

  /** A coin that exceeds what the first stage leaves is at hand, or it leaves nothing. */
  ghost predicate Reaches(v: seq<nat>, held: Counts, target: int, top: int)
    requires |held| == |v|
  {
    var c := Approach(v, held, target, top);
    target <= 0 || !NoneAbove(v, held, c, target - Value(v, c))
  }

  lemma {:induction false} ToppedCovers(v: seq<nat>, held: Counts, c: Counts, target: int)
    requires |held| == |v| && Positive(v) && AtMost(c, held)
    requires target <= 0 || (Value(v, c) < target && !NoneAbove(v, held, c, target - Value(v, c)))
    ensures AtMost(Topped(v, held, target, c), held) && Value(v, Topped(v, held, target, c)) >= target
  {
    var rest := target - Value(v, c);
    var d := LowestOver(v, held, c, rest, 0);
    AddCoinValue(v, c, d);
    if target > 0 {
      var i :| 0 <= i < |held| && c[i] < held[i] && v[i] > rest;
      OverFound(v, held, c, rest, 0, i);
    }
  }

  lemma {:induction false} OverFound(v: seq<nat>, held: Counts, used: Counts, rest: int, i: nat, j: nat)
    requires |held| == |used| == |v| && i <= j < |v| && rest >= 0 && v[j] > rest && used[j] < held[j]
    ensures LowestOver(v, held, used, rest, i) != -1
    decreases |v| - i
  {
    if i < j { OverFound(v, held, used, rest, i + 1, j); }
  }

  lemma {:induction false} ApproachBelow(v: seq<nat>, held: Counts, target: int, top: int)
    requires |held| == |v| && Positive(v)
    ensures AtMost(Approach(v, held, target, top), held)
    ensures Value(v, Approach(v, held, target, top)) <= if target <= 0 then 0 else target - 1
  {
    GreedyBelow(v, UpTo(held, top), |held|, target - 1);
    GreedyAtMost(v, UpTo(held, top), target - 1);
  }

  /** What cancelling takes away is part of the change. */
  lemma {:induction false} MinusLeast(v: seq<nat>, r: Counts, c: Counts, d: Counts, n: nat)
    requires n <= |c| <= |v| && IsMinus(r, c, d)
    ensures ValueTo(v, r, n) + ValueTo(v, d, n) >= ValueTo(v, c, n)
  {
    if n > 0 {
      MinusLeast(v, r, c, d, n - 1);
      MulSumLeft(r[n - 1], d[n - 1], v[n - 1]);
      if c[n - 1] < d[n - 1] { MulSumLeft(c[n - 1], d[n - 1] - c[n - 1], v[n - 1]); }
    }
  }

  /** Cancelling coins against change keeps the target covered. */
  lemma {:induction false} TrimmedCovers(v: seq<nat>, target: int, c: Counts)
    requires |c| == |v| > 0 && Positive(v) && Value(v, c) >= target
    ensures AtMost(Trimmed(v, target, c), c) && Value(v, Trimmed(v, target, c)) >= target
  {
    var change := Change(v, Value(v, c) - target);
    ChangeAtMost(v, Value(v, c) - target, change);
    MinusLeast(v, Minus(c, change), c, change, |v|);
  }

  /** The proposal of minimizeChange covers the target, and the held coins can pay it. */
  lemma {:induction false} AlternativeCovers(v: seq<nat>, held: Counts, target: int, top: int)
    requires |held| == |v| > 0 && Chain(v) && Reaches(v, held, target, top)
    ensures AltAmount(v, held, target, top) >= target && Payable(v, held, AltAmount(v, held, target, top))
  {
    ApproachBelow(v, held, target, top);
    var c := Approach(v, held, target, top);
    ToppedCovers(v, held, c, target);
    var topped := Topped(v, held, target, c);
    TrimmedCovers(v, target, topped);
    AtMostTrans(Trimmed(v, target, topped), topped, held);
    PayableBy(v, held, Trimmed(v, target, topped), AltAmount(v, held, target, top));
  }

  ghost predicate Covers(v: seq<nat>, held: Counts, target: int, used: Counts, r: int)
    requires |held| == |v|
  {
    AtMost(used, held) && Value(v, used) >= target && r == Coins(Change(v, Value(v, used) - target))
  }

  /** The outcome covers the target if the proposal does, and then makes no more change. */
  lemma {:induction false} ChosenCovers(v: seq<nat>, target: int, held: Counts, base: Counts, n: int, amount: nat,
                                        allowed: bool, r: int, used: Counts)
    requires |held| == |v| > 0 && Chain(v) && Covers(v, held, target, base, n)
    requires n == 0 || (amount >= target && Payable(v, held, amount))
    requires Chosen(v, target, held, base, n, amount, allowed, r, used)
    ensures Covers(v, held, target, used, r) && r <= n
  {
    GreedyAtMost(v, held, amount);
    GreedyComplete(v, held, amount);
  }

  lemma {:induction false} OneCovers(v: seq<nat>, held: Counts, target: int, d: nat)
    requires |held| == |v| && d < |v| && held[d] > 0 && target < v[d]
    ensures Value(v, held) >= target
    ensures Covers(v, held, target, AddCoin(None(|v|), d), Coins(Change(v, v[d] - target)))
  {
    OneBelowAll(v, held, d, |held|);
    NoneValue(v, None(|v|), |v|);
    OneMore(v, None(|v|), d);
  }

  lemma {:induction false} OneBelowAll(v: seq<nat>, held: Counts, d: nat, n: nat)
    requires d < n <= |held| && n <= |v| && held[d] > 0
    ensures ValueTo(v, held, n) >= v[d]
  {
    if d == n - 1 {
      MulOnce(held[d], v[d]);
    } else {
      OneBelowAll(v, held, d, n - 1);
    }
  }

  /** Taking from the top covers the amount if the coins can, and takes them all if not. */
  lemma {:induction false} CoverReaches(v: seq<nat>, held: Counts, n: nat, amount: int)
    requires n <= |held| && n <= |v| && Positive(v)
    ensures if ValueTo(v, held, n) >= amount then Value(v, CoverTo(v, held, n, amount)) >= amount
            else forall i :: 0 <= i < n ==> CoverTo(v, held, n, amount)[i] == held[i]
  {
    if n > 0 {
      var g, rest, low := CoverStep(v, held, n - 1, amount);
      if g == held[n - 1] {
        CoverReaches(v, held, n - 1, rest);
      } else {
        MulLess(g, held[n - 1], v[n - 1]);
      }
    }
  }

  lemma {:induction false} CoverWithin(v: seq<nat>, held: Counts, n: nat, amount: int)
    requires n <= |held| && n <= |v|
    ensures Within(CoverTo(v, held, n, amount), held, n)
  {
    if n > 0 {
      CoverWithin(v, held, n - 1, amount - Mul(TakenOver(amount, v[n - 1], held[n - 1]), v[n - 1]));
    }
  }

  /** Where the first stage leaves no coin above the rest, taking from the top hits the target exactly. */
  lemma {:induction false} CoverExact(v: seq<nat>, held: Counts, n: nat, amount: nat, c: Counts, left: int)
    requires n <= |held| && n <= |v| && Positive(v) && amount > 0 && ValueTo(v, held, n) >= amount
    requires c == GreedyTo(v, held, n, amount - 1) && left == amount - Value(v, c) && NoneAbove(v, held, c, left)
    ensures Value(v, CoverTo(v, held, n, amount)) == amount
  {
    if n > 0 {
      var g, rest, low := GreedyStep(v, held, n - 1, amount - 1);
      NoneAboveStep(v, held, low, g, left);
      if g == held[n - 1] {
        CoverExact(v, held, n - 1, rest + 1, low, left);
        TakenAlways(amount, v[n - 1], g);
        CoverTop(v, held, n - 1, n, amount, g, rest + 1);
      } else {
        CoverLast(v, held, n - 1, n, amount, g);
      }
    }
  }

  lemma {:induction false} CoverLast(v: seq<nat>, held: Counts, n: nat, next: nat, amount: nat, g: nat)
    requires n < |held| && n < |v| && next == n + 1 && Positive(v) && amount > 0
    requires g == Taken(amount - 1, v[n], held[n]) < held[n] && amount - Mul(g, v[n]) == v[n]
    ensures Value(v, CoverTo(v, held, next, amount)) == amount
  {
    TakenOneMore(amount, v[n], held[n], g);
    CoverNothing(v, held, n, 0);
    CoverTop(v, held, n, next, amount, g + 1, 0);
  }

  lemma {:induction false} NoneAboveStep(v: seq<nat>, held: Counts, low: Counts, g: nat, left: int)
    requires |low| < |held| && |low| < |v| && NoneAbove(v, held, low + [g], left)
    ensures NoneAbove(v, held, low, left) && (g < held[|low|] ==> v[|low|] <= left)
  {
    assert forall i :: 0 <= i < |low| ==> (low + [g])[i] == low[i];
    assert (low + [g])[|low|] == g;
  }

  lemma {:induction false} CoverTop(v: seq<nat>, held: Counts, n: nat, next: nat, amount: int, g: nat, rest: int)
    requires n < |held| && n < |v| && next == n + 1 && Positive(v) && g == TakenOver(amount, v[n], held[n])
    requires rest == amount - Mul(g, v[n]) && Value(v, CoverTo(v, held, n, rest)) == rest
    ensures Value(v, CoverTo(v, held, next, amount)) == amount
  {
    var _, _, _ := CoverStep(v, held, n, amount);
  }

  lemma {:induction false} TakenAlways(amount: nat, v: nat, held: nat)
    requires amount > 0 && v > 0 && Taken(amount - 1, v, held) == held
    ensures TakenOver(amount, v, held) == held
  {
    if held > 0 { TakenAlways(amount - v, v, held - 1); }
  }

  lemma {:induction false} TakenOneMore(amount: nat, v: nat, held: nat, g: nat)
    requires amount > 0 && v > 0 && g == Taken(amount - 1, v, held) < held && amount - Mul(g, v) == v
    ensures TakenOver(amount, v, held) == g + 1 && amount - Mul(g + 1, v) == 0
  {
    if amount - 1 >= v {
      TakenOneMore(amount - v, v, held - 1, g - 1);
    } else {
      assert amount == v;
    }
  }

  lemma {:induction false} CoverNothing(v: seq<nat>, held: Counts, n: nat, amount: int)
    requires n <= |held| && n <= |v| && amount <= 0
    ensures Value(v, CoverTo(v, held, n, amount)) == 0
  {
    if n > 0 {
      CoverNothing(v, held, n - 1, amount);
      LastCoins(v, CoverTo(v, held, n - 1, amount), 0);
    }
  }

  lemma {:induction false} ChosenOneCovers(v: seq<nat>, nMax: int, fMinimizeChange: bool, target: int, held: Counts,
                                           d: nat, r: int, used: Counts)
    requires |held| == |v| > 0 && Chain(v) && d < |v| && held[d] > 0 && target < v[d]
    requires ChosenOne(v, nMax, fMinimizeChange, target, held, d, r, used)
    ensures Value(v, held) >= target && Covers(v, held, target, used, r)
  {
    OneCovers(v, held, target, d);
    OneOverReaches(v, held, target, d);
    var top := HighestHeld(held, d);
    AlternativeCovers(v, held, target, top);
    ChosenCovers(v, target, held, AddCoin(None(|v|), d), Coins(Change(v, v[d] - target)),
                 AltAmount(v, held, target, top),
                 fMinimizeChange && Coins(Greedy(v, held, AltAmount(v, held, target, top))) <= nMax, r, used);
  }

  lemma {:induction false} ChosenManyCovers(v: seq<nat>, nMax: int, fMinimizeChange: bool, target: int, held: Counts,
                                            c: Counts, r: int, used: Counts)
    requires |held| == |v| > 0 && Chain(v) && c == Cover(v, held, target) && Value(v, held) >= target
    requires ChosenMany(v, nMax, fMinimizeChange, target, held, c, r, used)
    ensures Covers(v, held, target, used, r)
  {
    CoverReaches(v, held, |held|, target);
    CoverWithin(v, held, |held|, target);
    var amount := AltAmount(v, held, target, HighestHeld(held, |v|));
    var n, coins := Coins(Change(v, Value(v, c) - target)), Coins(Greedy(v, held, amount));
    if n > 0 {
      NoneOverReaches(v, held, target);
      AlternativeCovers(v, held, target, HighestHeld(held, |v|));
    }
    ChosenCovers(v, target, held, c, n, amount, coins <= nMax && (fMinimizeChange || coins <= Coins(c)), r, used);
  }

  /** With too few coins, all are used, and 0 is returned. */
  lemma {:induction false} ChosenShort(v: seq<nat>, nMax: int, fMinimizeChange: bool, target: int, held: Counts,
                                       c: Counts, r: int, used: Counts)
    requires |held| == |v| > 0 && Chain(v) && c == Cover(v, held, target) && Value(v, held) < target
    requires ChosenMany(v, nMax, fMinimizeChange, target, held, c, r, used)
    ensures used == held && r == 0
  {
    CoverReaches(v, held, |held|, target);
    assert c == held;
    NoChange(v, Value(v, c) - target);
  }

  /** Whenever the held coins are worth the target, the chosen coins are held, cover the target, and the number
      returned is that of the coins in change; otherwise all coins are used and 0 is returned. */
  lemma {:induction false} ChoiceCovers(v: seq<nat>, nMax: int, fMinimizeChange: bool, target: int, held: Counts,
                                        r: int, used: Counts)
    requires |held| == |v| > 0 && Chain(v) && Choice(v, nMax, fMinimizeChange, target, held, r, used)
    ensures if Value(v, held) >= target then Covers(v, held, target, used, r) else used == held && r == 0
  {
    var d := MinOver(v, held, target, 0);
    if d != -1 {
      ChosenOneCovers(v, nMax, fMinimizeChange, target, held, d, r, used);
    } else if Value(v, held) >= target {
      ChosenManyCovers(v, nMax, fMinimizeChange, target, held, Cover(v, held, target), r, used);
    } else {
      ChosenShort(v, nMax, fMinimizeChange, target, held, Cover(v, held, target), r, used);
    }
  }

  lemma {:induction false} OneOverReaches(v: seq<nat>, held: Counts, target: int, d: nat)
    requires |held| == |v| && Positive(v) && d < |v| && held[d] > 0 && v[d] > target
    ensures Reaches(v, held, target, HighestHeld(held, d))
  {
    var top := HighestHeld(held, d);
    var c := Approach(v, held, target, top);
    GreedyAtMost(v, UpTo(held, top), target - 1);
    assert c[d] <= UpTo(held, top)[d] == 0;
    assert c[d] < held[d] && v[d] > target - Value(v, c);
  }

  lemma {:induction false} NoneOverReaches(v: seq<nat>, held: Counts, target: int)
    requires |held| == |v| > 0 && Chain(v) && Value(v, held) >= target
    ensures Reaches(v, held, target, HighestHeld(held, |v|))
            || Coins(Change(v, Value(v, Cover(v, held, target)) - target)) == 0
  {
    var top := HighestHeld(held, |v|);
    HighestIs(held, |v|);
    assert UpTo(held, top) == held;
    if !Reaches(v, held, target, top) {
      var c := Approach(v, held, target, top);
      CoverExact(v, held, |held|, target, c, target - Value(v, c));
      NoChange(v, 0);
    }
  }

  // ---------------------------------------------------------------------------
  // Mints
  // ---------------------------------------------------------------------------

  /** CZerocoinMint: its denomination, whether it is used, and what else identifies it. */
  datatype Mint = Mint(denom: int, isUsed: bool, serial: nat)

  predicate Fits(m: Mint, d: int) {
    !m.isUsed && m.denom == d
  }

  /** The number of unused mints of a denomination from position `i` on. */
  function CountFrom(mints: seq<Mint>, d: int, i: nat): nat
    requires i <= |mints|
    decreases |mints| - i
  {
    if i == |mints| then 0 else (if Fits(mints[i], d) then 1 else 0) + CountFrom(mints, d, i + 1)
  }

  /** The unused mints of the first `n` denominations, counted. */
  function HeldOf(mints: seq<Mint>, n: nat): (c: Counts)
    ensures |c| == n && forall i :: 0 <= i < n ==> c[i] == CountFrom(mints, i, 0)
  {
    seq(n, i => CountFrom(mints, i, 0))
  }

  /** The inner loop of getIdealSpends. */
  method TakeMints(mints: seq<Mint>, d: int, value: nat, amount: int) returns (taken: nat, rest: int)
    requires value > 0
    ensures taken == Taken(amount, value, CountFrom(mints, d, 0)) && rest == amount - Mul(taken, value)
  {
    taken, rest := 0, amount;
    for i := 0 to |mints|
      invariant Taken(amount, value, CountFrom(mints, d, 0)) == taken + Taken(rest, value, CountFrom(mints, d, i))
      invariant rest == amount - Mul(taken, value)
    {
      if mints[i].isUsed {
        continue;
      }
      if rest >= value && d == mints[i].denom {
        taken := taken + 1;
        rest := rest - value;
      }
      if rest < value {
        return;
      }
    }
  }

  /** getIdealSpends; `used0` is mapOfDenomsUsed on entry. True exactly when some unused mints are worth the target, and
      then the fewest that are have been added to the map. */
  method GetIdealSpends(v: seq<nat>, nValueTarget: int, mints: seq<Mint>, used0: Counts)
    returns (exact: bool, used: Counts)
    requires Chain(v) && |used0| == |v|
    ensures |used| == |v|
    ensures forall i :: 0 <= i < |v| ==> used[i] == used0[i] + Greedy(v, HeldOf(mints, |v|), nValueTarget)[i]
    ensures exact == (Value(v, Greedy(v, HeldOf(mints, |v|), nValueTarget)) == nValueTarget)
    ensures exact <==> Payable(v, HeldOf(mints, |v|), nValueTarget)
  {
    ghost var held := HeldOf(mints, |v|);
    ghost var all := Greedy(v, held, nValueTarget);
    used := used0;
    var nRemainingValue := nValueTarget;
    var i := |v|;
    while i > 0
      invariant 0 <= i <= |v| == |used|
      invariant Starts(all, GreedyTo(v, held, i, nRemainingValue))
      invariant GreedyRest(v, held, |v|, nValueTarget) == GreedyRest(v, held, i, nRemainingValue)
      invariant forall j :: 0 <= j < |v| ==> used[j] == used0[j] + if j < i then 0 else all[j]
    {
      i := i - 1;
      var taken, rest := TakeMints(mints, i, v[i], nRemainingValue);
      GreedyMove(v, held, i, nRemainingValue, taken, all);
      used := used[i := used[i] + taken];
      nRemainingValue := rest;
    }
    exact := nRemainingValue == 0;
    GreedyRestIs(v, held, |v|, nValueTarget);
    GreedyComplete(v, held, nValueTarget);
  }

  /** The first `k` unused mints of a denomination from position `i` on. */
  function FirstFrom(mints: seq<Mint>, d: int, k: nat, i: nat): seq<Mint>
    requires i <= |mints|
    decreases |mints| - i
  {
    if i == |mints| || k == 0 then []
    else if Fits(mints[i], d) then [mints[i]] + FirstFrom(mints, d, k - 1, i + 1)
    else FirstFrom(mints, d, k, i + 1)
  }

  /** `k` unused mints of a denomination, in as many passes over the list as it takes. */
  function Passes(mints: seq<Mint>, d: int, k: nat): seq<Mint>
    requires k > 0 ==> CountFrom(mints, d, 0) > 0
  {
    var n := CountFrom(mints, d, 0);
    if k <= n then FirstFrom(mints, d, k, 0) else FirstFrom(mints, d, n, 0) + Passes(mints, d, k - n)
  }

  /** Every denomination that is needed has an unused mint: without one, the loop of getSpends does not end. */
  predicate Served(mints: seq<Mint>, used: Counts) {
    forall i :: 0 <= i < |used| && used[i] > 0 ==> CountFrom(mints, i, 0) > 0
  }

  /** For the first `n` denominations from the highest down, as many mints as counted. */
  function SpendsTo(mints: seq<Mint>, used: Counts, n: nat): seq<Mint>
    requires n <= |used| && Served(mints, used)
  {
    if n == 0 then [] else Passes(mints, n - 1, used[n - 1]) + SpendsTo(mints, used, n - 1)
  }

  lemma {:induction false} FirstCapped(mints: seq<Mint>, d: int, k: nat, i: nat)
    requires i <= |mints| && k >= CountFrom(mints, d, i)
    ensures FirstFrom(mints, d, k, i) == FirstFrom(mints, d, CountFrom(mints, d, i), i)
    decreases |mints| - i
  {
    if i < |mints| { FirstCapped(mints, d, if Fits(mints[i], d) && k > 0 then k - 1 else k, i + 1); }
  }

  /** One pass of getSpends over the list. */
  method OnePass(mints: seq<Mint>, d: int, value: nat, k: nat)
    returns (selected: seq<Mint>, spent: nat, left: nat)
    ensures selected == FirstFrom(mints, d, k, 0) && left <= k && spent == Mul(k - left, value)
    ensures left == if k <= CountFrom(mints, d, 0) then 0 else k - CountFrom(mints, d, 0)
  {
    selected, spent, left := [], 0, k;
    for i := 0 to |mints|
      invariant FirstFrom(mints, d, k, 0) == selected + FirstFrom(mints, d, left, i)
      invariant left <= k && spent == Mul(k - left, value)
      invariant k - left <= CountFrom(mints, d, 0) - CountFrom(mints, d, i)
      invariant left > 0 ==> k - left == CountFrom(mints, d, 0) - CountFrom(mints, d, i)
    {
      if mints[i].isUsed {
        continue;
      }
      if d == mints[i].denom && left > 0 {
        selected := selected + [mints[i]];
        spent := spent + value;
        left := left - 1;
      }
    }
  }

  /** The do-while loop of getSpends for one denomination. */
  method SpendMints(mints: seq<Mint>, d: int, value: nat, k: nat) returns (selected: seq<Mint>, spent: nat)
    requires k > 0 ==> CountFrom(mints, d, 0) > 0
    ensures selected == Passes(mints, d, k) && spent == Mul(k, value)
  {
    var left: nat;
    selected, spent, left := OnePass(mints, d, value, k);
    if left > 0 { FirstCapped(mints, d, k, 0); }
    while left > 0
      invariant 0 <= left <= k && (left > 0 ==> CountFrom(mints, d, 0) > 0) && spent == Mul(k - left, value)
      invariant Passes(mints, d, k) == selected + Passes(mints, d, left)
    {
      ghost var before := left;
      var more, moreSpent;
      more, moreSpent, left := OnePass(mints, d, value, left);
      if left > 0 { FirstCapped(mints, d, before, 0); }
      MulSumLeft(k - before, before - left, value);
      selected, spent := selected + more, spent + moreSpent;
    }
    assert selected + [] == selected;
  }

  /** The value of a list of mints. */
  function MintsValue(v: seq<nat>, mints: seq<Mint>): nat {
    if mints == [] then 0
    else (if 0 <= mints[0].denom < |v| then v[mints[0].denom] else 0) + MintsValue(v, mints[1..])
  }

  /** Unused mints of the first `n` denominations, as many as counted, and worth as much. */
  ghost predicate SpendsMade(v: seq<nat>, selected: seq<Mint>, used: Counts, n: nat)
    requires n <= |used| <= |v|
  {
    && (forall m :: m in selected ==> !m.isUsed && 0 <= m.denom < n)
    && |selected| == CoinsTo(used, n) && MintsValue(v, selected) == ValueTo(v, used, n)
  }

  /** The same, and no mint more often than it is listed. */
  ghost predicate SpendsOk(v: seq<nat>, mints: seq<Mint>, selected: seq<Mint>, used: Counts, n: nat)
    requires n <= |used| <= |v|
  {
    SpendsMade(v, selected, used, n) && multiset(selected) <= multiset(mints)
  }

  lemma {:induction false} FirstFits(v: seq<nat>, mints: seq<Mint>, d: nat, k: nat, i: nat)
    requires i <= |mints| && k <= CountFrom(mints, d, i) && d < |v|
    ensures var s := FirstFrom(mints, d, k, i);
            && (forall m :: m in s ==> Fits(m, d)) && |s| == k && MintsValue(v, s) == Mul(k, v[d])
    decreases |mints| - i
  {
    if i < |mints| && k > 0 {
      if Fits(mints[i], d) {
        FirstFits(v, mints, d, k - 1, i + 1);
        assert FirstFrom(mints, d, k, i)[1..] == FirstFrom(mints, d, k - 1, i + 1);
      } else {
        FirstFits(v, mints, d, k, i + 1);
      }
    }
  }

  lemma {:induction false} FirstListed(mints: seq<Mint>, d: int, k: nat, i: nat)
    requires i <= |mints|
    ensures multiset(FirstFrom(mints, d, k, i)) <= multiset(mints[i..])
    decreases |mints| - i
  {
    if i < |mints| && k > 0 {
      assert mints[i..] == [mints[i]] + mints[i + 1..];
      FirstListed(mints, d, if Fits(mints[i], d) then k - 1 else k, i + 1);
    }
  }

  lemma {:induction false} MintsValueSum(v: seq<nat>, a: seq<Mint>, b: seq<Mint>)
    ensures MintsValue(v, a + b) == MintsValue(v, a) + MintsValue(v, b)
  {
    if a == [] {
      assert a + b == b;
    } else {
      assert (a + b)[1..] == a[1..] + b;
      MintsValueSum(v, a[1..], b);
    }
  }

  /** Lists of different mints from one list are together from that list. */
  lemma {:induction false} TogetherFrom(a: seq<Mint>, b: seq<Mint>, mints: seq<Mint>)
    requires multiset(a) <= multiset(mints) && multiset(b) <= multiset(mints)
    requires forall m :: m in a ==> m !in b
    ensures multiset(a + b) <= multiset(mints)
  {
    forall m ensures multiset(a + b)[m] <= multiset(mints)[m] {
      assert multiset(a + b)[m] == multiset(a)[m] + multiset(b)[m];
      assert multiset(a)[m] > 0 ==> m in a;
      assert multiset(b)[m] > 0 ==> m in b;
    }
  }

  lemma {:induction false} PassesFit(v: seq<nat>, mints: seq<Mint>, d: nat, k: nat)
    requires d < |v| && (k > 0 ==> CountFrom(mints, d, 0) > 0)
    ensures var s := Passes(mints, d, k);
            && (forall m :: m in s ==> Fits(m, d)) && |s| == k && MintsValue(v, s) == Mul(k, v[d])
  {
    var n := CountFrom(mints, d, 0);
    if k <= n {
      FirstFits(v, mints, d, k, 0);
    } else {
      FirstFits(v, mints, d, n, 0);
      PassesFit(v, mints, d, k - n);
      MintsValueSum(v, FirstFrom(mints, d, n, 0), Passes(mints, d, k - n));
      MulSumLeft(n, k - n, v[d]);
    }
  }

  lemma {:induction false} SpendsAreMade(v: seq<nat>, mints: seq<Mint>, used: Counts, n: nat)
    requires n <= |used| <= |v| && Served(mints, used)
    ensures SpendsMade(v, SpendsTo(mints, used, n), used, n)
  {
    if n > 0 {
      SpendsAreMade(v, mints, used, n - 1);
      PassesFit(v, mints, n - 1, used[n - 1]);
      MintsValueSum(v, Passes(mints, n - 1, used[n - 1]), SpendsTo(mints, used, n - 1));
    }
  }

  lemma {:induction false} PassesListed(mints: seq<Mint>, d: int, k: nat)
    requires k <= CountFrom(mints, d, 0)
    ensures multiset(Passes(mints, d, k)) <= multiset(mints)
  {
    FirstListed(mints, d, k, 0);
    assert mints[0..] == mints;
  }

  lemma {:induction false} SpendsListed(v: seq<nat>, mints: seq<Mint>, used: Counts, n: nat)
    requires n <= |used| <= |v| && AtMost(used, HeldOf(mints, |used|)) && Served(mints, used)
    ensures multiset(SpendsTo(mints, used, n)) <= multiset(mints)
  {
    if n > 0 {
      var d: nat := n - 1;
      SpendsListed(v, mints, used, d);
      SpendsAreMade(v, mints, used, d);
      PassesFit(v, mints, d, used[d]);
      PassesListed(mints, d, used[d]);
      TogetherFrom(Passes(mints, d, used[d]), SpendsTo(mints, used, d), mints);
    }
  }

  // ---------------------------------------------------------------------------
  // When no mint is selected twice
  // ---------------------------------------------------------------------------

  lemma {:induction false} CountTail(a: seq<Mint>, b: seq<Mint>, d: int, i: nat)
    requires i <= |b|
    ensures CountFrom(a + b, d, |a| + i) == CountFrom(b, d, i)
    decreases |b| - i
  {
    if i < |b| { CountTail(a, b, d, i + 1); }
  }

  lemma {:induction false} CountSum(a: seq<Mint>, b: seq<Mint>, d: int, i: nat)
    requires i <= |a|
    ensures CountFrom(a + b, d, i) == CountFrom(a, d, i) + CountFrom(b, d, 0)
    decreases |a| - i
  {
    if i < |a| { CountSum(a, b, d, i + 1); } else { CountTail(a, b, d, 0); }
  }

  lemma {:induction false} CountAll(s: seq<Mint>, d: int, e: int, i: nat)
    requires i <= |s| && forall m :: m in s ==> Fits(m, e)
    ensures CountFrom(s, d, i) == if d == e then |s| - i else 0
    decreases |s| - i
  {
    if i < |s| {
      assert s[i] in s;
      CountAll(s, d, e, i + 1);
    }
  }

  /** A list without the element at `j`. */
  lemma {:induction false} TakenOut(b: seq<Mint>, j: nat, rest: seq<Mint>, d: int)
    requires j < |b| && rest == b[..j] + b[j + 1..]
    ensures multiset(b) == multiset(rest) + multiset{b[j]}
    ensures CountFrom(b, d, 0) == CountFrom(rest, d, 0) + if Fits(b[j], d) then 1 else 0
  {
    assert b == b[..j] + ([b[j]] + b[j + 1..]);
    CountSum(b[..j], [b[j]] + b[j + 1..], d, 0);
    CountSum([b[j]], b[j + 1..], d, 0);
    CountSum(b[..j], b[j + 1..], d, 0);
  }

  lemma {:induction false} SmallerMultiset(x: multiset<Mint>, y: multiset<Mint>, m: Mint)
    requires x + multiset{m} <= y + multiset{m}
    ensures x <= y
  {
    forall e ensures x[e] <= y[e] {
      assert (x + multiset{m})[e] <= (y + multiset{m})[e];
    }
  }

  lemma {:induction false} CountListed(a: seq<Mint>, b: seq<Mint>, d: int)
    requires multiset(a) <= multiset(b)
    ensures CountFrom(a, d, 0) <= CountFrom(b, d, 0)
    decreases |a|
  {
    if a != [] {
      assert a[0] in multiset(a);
      var j :| 0 <= j < |b| && b[j] == a[0];
      var rest := b[..j] + b[j + 1..];
      TakenOut(b, j, rest, d);
      TakenOut(a, 0, a[1..], d);
      SmallerMultiset(multiset(a[1..]), multiset(rest), a[0]);
      CountListed(a[1..], rest, d);
    }
  }

  lemma {:induction false} SpendsCount(v: seq<nat>, mints: seq<Mint>, used: Counts, n: nat, d: nat)
    requires d < n <= |used| <= |v| && Served(mints, used)
    ensures CountFrom(SpendsTo(mints, used, n), d, 0) == used[d]
  {
    var top, low := Passes(mints, n - 1, used[n - 1]), SpendsTo(mints, used, n - 1);
    PassesFit(v, mints, n - 1, used[n - 1]);
    CountSum(top, low, d, 0);
    CountAll(top, d, n - 1, 0);
    if d < n - 1 {
      SpendsCount(v, mints, used, n - 1, d);
    } else {
      SpendsAreMade(v, mints, used, n - 1);
      NoneCounted(low, d, 0);
    }
  }

  lemma {:induction false} NoneCounted(s: seq<Mint>, d: int, i: nat)
    requires i <= |s| && forall m :: m in s ==> m.denom < d
    ensures CountFrom(s, d, i) == 0
    decreases |s| - i
  {
    if i < |s| {
      assert s[i] in s;
      NoneCounted(s, d, i + 1);
    }
  }

  /** getSpends selects no mint more often than it is listed if and only if there are enough unused mints. */
  lemma {:induction false} SpendsDistinct(v: seq<nat>, mints: seq<Mint>, used: Counts)
    requires |used| == |v| && Served(mints, used)
    ensures SpendsMade(v, SpendsTo(mints, used, |used|), used, |used|)
    ensures multiset(SpendsTo(mints, used, |used|)) <= multiset(mints) <==> AtMost(used, HeldOf(mints, |used|))
  {
    SpendsAreMade(v, mints, used, |used|);
    if AtMost(used, HeldOf(mints, |used|)) {
      SpendsListed(v, mints, used, |used|);
    } else {
      var d :| 0 <= d < |used| && used[d] > HeldOf(mints, |used|)[d];
      SpendsCount(v, mints, used, |used|, d);
      if multiset(SpendsTo(mints, used, |used|)) <= multiset(mints) {
        CountListed(SpendsTo(mints, used, |used|), mints, d);
        assert false;
      }
    }
  }

  /** Two mints are wanted of a single one: it is selected twice. */
  lemma {:induction false} SpentTwice(m: Mint)
    requires Fits(m, 0)
    ensures Served([m], [2]) && SpendsTo([m], [2], 1) == [m, m]
  {
    assert CountFrom([m], 0, 1) == 0 && CountFrom([m], 0, 0) == 1;
    assert FirstFrom([m], 0, 1, 0) == [m];
    assert Passes([m], 0, 1) == [m] && Passes([m], 0, 2) == [m] + [m];
  }

  lemma {:induction false} SpendsStep(mints: seq<Mint>, used: Counts, n: nat, next: nat, before: seq<Mint>)
    requires next == n + 1 <= |used| && Served(mints, used)
    ensures before + SpendsTo(mints, used, next) == before + Passes(mints, n, used[n]) + SpendsTo(mints, used, n)
  {
  }

  /** getSpends; where a needed denomination has no unused mint, the source loops for ever. */
  method GetSpends(v: seq<nat>, mints: seq<Mint>, used: Counts) returns (selected: seq<Mint>, nCoinsSpentValue: nat)
    requires |used| == |v| && Served(mints, used)
    ensures selected == SpendsTo(mints, used, |used|) && SpendsMade(v, selected, used, |used|)
    ensures multiset(selected) <= multiset(mints) <==> AtMost(used, HeldOf(mints, |used|))
    ensures nCoinsSpentValue == Value(v, used)
  {
    selected, nCoinsSpentValue := [], 0;
    var i := |v|;
    while i > 0
      invariant 0 <= i <= |v|
      invariant SpendsTo(mints, used, |used|) == selected + SpendsTo(mints, used, i)
      invariant Value(v, used) == nCoinsSpentValue + ValueTo(v, used, i)
    {
      SpendsStep(mints, used, i - 1, i, selected);
      i := i - 1;
      var ofDenom, spent := SpendMints(mints, i, v[i], used[i]);
      selected := selected + ofDenom;
      nCoinsSpentValue := nCoinsSpentValue + spent;
    }
    assert selected + [] == selected;
    SpendsDistinct(v, mints, used);
  }

  /** The branch where coin `d` exceeds the target leaves no change worth a coin: the coin exceeds it by less than the
      lowest value, or the proposal of minimizeChange does and is allowed. */
  ghost predicate OneLeavesNothing(v: seq<nat>, nMax: int, fMinimizeChange: bool, target: int, held: Counts, d: nat)
    requires |held| == |v| > 0 && d < |v|
  {
    var amount := AltAmount(v, held, target, HighestHeld(held, d));
    || v[d] - target < v[0]
    || (fMinimizeChange && amount - target < v[0] && Coins(Greedy(v, held, amount)) <= nMax)
  }

  /** The same for the branch where several coins `c` are taken. */
  ghost predicate ManyLeaveNothing(v: seq<nat>, nMax: int, fMinimizeChange: bool, target: int, held: Counts, c: Counts)
    requires |held| == |c| == |v| > 0
  {
    var amount := AltAmount(v, held, target, HighestHeld(held, |v|));
    var coins := Coins(Greedy(v, held, amount));
    || Value(v, c) - target < v[0]
    || (amount - target < v[0] && coins <= nMax && (fMinimizeChange || coins <= Coins(c)))
  }

  ghost predicate LeavesNoChange(v: seq<nat>, nMax: int, fMinimizeChange: bool, target: int, held: Counts)
    requires |held| == |v| > 0
  {
    var d := MinOver(v, held, target, 0);
    if d != -1 then OneLeavesNothing(v, nMax, fMinimizeChange, target, held, d)
    else ManyLeaveNothing(v, nMax, fMinimizeChange, target, held, Cover(v, held, target))
  }

  lemma {:induction false} ChosenNothing(v: seq<nat>, target: int, held: Counts, base: Counts, over: int, amount: nat,
                                         allowed: bool, r: int, used: Counts)
    requires |held| == |v| > 0 && Chain(v)
    requires Chosen(v, target, held, base, Coins(Change(v, over)), amount, allowed, r, used)
    ensures r == 0 <==> over < v[0] || (allowed && amount - target < v[0])
  {
    NoChange(v, over);
    NoChange(v, amount - target);
  }

  lemma {:induction false} OneFails(v: seq<nat>, nMax: int, fMinimizeChange: bool, target: int, held: Counts, d: nat,
                                    r: int, used: Counts)
    requires |held| == |v| > 0 && Chain(v) && d < |v|
    requires ChosenOne(v, nMax, fMinimizeChange, target, held, d, r, used)
    ensures r == 0 <==> OneLeavesNothing(v, nMax, fMinimizeChange, target, held, d)
  {
    var amount := AltAmount(v, held, target, HighestHeld(held, d));
    ChosenNothing(v, target, held, AddCoin(None(|v|), d), v[d] - target, amount,
                  fMinimizeChange && Coins(Greedy(v, held, amount)) <= nMax, r, used);
  }

  lemma {:induction false} ManyFail(v: seq<nat>, nMax: int, fMinimizeChange: bool, target: int, held: Counts, c: Counts,
                                    r: int, used: Counts)
    requires |held| == |c| == |v| > 0 && Chain(v)
    requires ChosenMany(v, nMax, fMinimizeChange, target, held, c, r, used)
    ensures r == 0 <==> ManyLeaveNothing(v, nMax, fMinimizeChange, target, held, c)
  {
    var amount := AltAmount(v, held, target, HighestHeld(held, |v|));
    var coins := Coins(Greedy(v, held, amount));
    ChosenNothing(v, target, held, c, Value(v, c) - target, amount,
                  coins <= nMax && (fMinimizeChange || coins <= Coins(c)), r, used);
  }

  /** The change path selects nothing if and only if the held coins are not worth the target, or one of the branches
      leaves no change: all of it can be computed before the call. */
  lemma {:induction false} ChoiceFails(v: seq<nat>, nMax: int, fMinimizeChange: bool, target: int, held: Counts, r: int,
                                       used: Counts)
    requires |held| == |v| > 0 && Chain(v) && Choice(v, nMax, fMinimizeChange, target, held, r, used)
    ensures r == 0 <==> Value(v, held) < target || LeavesNoChange(v, nMax, fMinimizeChange, target, held)
  {
    var d := MinOver(v, held, target, 0);
    if d != -1 {
      OneCovers(v, held, target, d);
      OneFails(v, nMax, fMinimizeChange, target, held, d, r, used);
    } else if Value(v, held) < target {
      ChosenShort(v, nMax, fMinimizeChange, target, held, Cover(v, held, target), r, used);
    } else {
      ManyFail(v, nMax, fMinimizeChange, target, held, Cover(v, held, target), r, used);
    }
  }

  /** A target that the held coins cover fails only if, rounded up to the lowest value, it can be paid exactly. */
  lemma {:induction false} FailsOnlyNear(v: seq<nat>, nMax: int, fMinimizeChange: bool, target: int, held: Counts,
                                         r: int, used: Counts) returns (t: nat)
    requires |held| == |v| > 0 && Chain(v) && Choice(v, nMax, fMinimizeChange, target, held, r, used)
    requires Value(v, held) >= target && r == 0
    ensures target <= t < target + v[0] && Divides(v[0], t) && Payable(v, held, t)
  {
    ChoiceCovers(v, nMax, fMinimizeChange, target, held, r, used);
    NoChange(v, Value(v, used) - target);
    t := Value(v, used);
    LowestDivides(v, used, |used|);
    PayableBy(v, held, used, t);
  }

  lemma {:induction false} LowestDivides(v: seq<nat>, c: Counts, n: nat)
    requires n <= |c| <= |v| && |v| > 0 && Chain(v)
    ensures Divides(v[0], ValueTo(v, c, n))
  {
    if n > 0 {
      LowestDivides(v, c, n - 1);
      if n > 1 {
        DividesMul(v[n - 1], c[n - 1]);
        assert Divides(v[0], v[n - 1]);
        DividesTrans(v[0], v[n - 1], Mul(c[n - 1], v[n - 1]));
      } else {
        DividesMul(v[0], c[0]);
      }
      DividesSum(v[0], ValueTo(v, c, n - 1), Mul(c[n - 1], v[n - 1]));
    }
  }

  /** One five-cent coin covers one unit less than five cents, yet nothing is selected. */
  lemma {:induction false} FiveCentsFail(nMax: int, fMinimizeChange: bool, r: int, used: Counts)
    requires Choice(AMOUNTS, nMax, fMinimizeChange, 5 * CENT - 1, [1, 0, 0, 0, 0, 0, 0, 0], r, used)
    ensures Value(AMOUNTS, [1, 0, 0, 0, 0, 0, 0, 0]) >= 5 * CENT - 1 && r == 0
  {
    var held: Counts := [1, 0, 0, 0, 0, 0, 0, 0];
    AmountsAreChain();
    assert MinOver(AMOUNTS, held, 5 * CENT - 1, 0) == 0;
    OneCovers(AMOUNTS, held, 5 * CENT - 1, 0);
    ChosenOneCovers(AMOUNTS, nMax, fMinimizeChange, 5 * CENT - 1, held, 0, r, used);
    ChoiceFails(AMOUNTS, nMax, fMinimizeChange, 5 * CENT - 1, held, r, used);
  }

  /** The converse of FailsOnlyNear is false: 14 is 3 fours and 2 ones, but unless change is minimized, a twenty is
      chosen and 6 come back. */
  lemma {:induction false} NearButChosen(nMax: int, r: int, used: Counts)
    requires Choice([1, 4, 20], nMax, false, 14, [3, 5, 4], r, used)
    ensures Payable([1, 4, 20], [3, 5, 4], 14) && r != 0
  {
    var v: seq<nat>, held: Counts := [1, 4, 20], [3, 5, 4];
    SmallChain(v);
    PaysFourteen(v, held, [2, 3, 0]);
    PayableBy(v, held, [2, 3, 0], 14);
    assert MinOver(v, held, 14, 0) == MinOver(v, held, 14, 1) == MinOver(v, held, 14, 2) == 2;
    OneFails(v, nMax, false, 14, held, 2, r, used);
  }

  lemma {:induction false} SmallChain(v: seq<nat>)
    requires v == [1, 4, 20]
    ensures Chain(v)
  {
    MulIs(5, 4);
    DividesMul(4, 5);
    DividesMul(1, 4);
    MulIs(4, 1);
    ChainFromSteps(v);
  }

  lemma {:induction false} PaysFourteen(v: seq<nat>, held: Counts, c: Counts)
    requires v == [1, 4, 20] && held == [3, 5, 4] && c == [2, 3, 0]
    ensures AtMost(c, held) && Value(v, c) == 14
  {
    MulIs(2, 1);
    MulIs(3, 4);
    assert ValueTo(v, c, 1) == 2 && ValueTo(v, c, 2) == 14;
  }

  /** What the change path of SelectMintsFromList selects: mints that cover the target, and none more often than it is
      listed if there are enough. */
  ghost predicate WithChange(v: seq<nat>, mints: seq<Mint>, target: int, used: Counts, selected: seq<Mint>, value: int,
                             r: int)
  {
    if r == 0 then selected == []
    else && |used| == |v| && SpendsMade(v, selected, used, |used|)
         && (multiset(selected) <= multiset(mints) <==> AtMost(used, HeldOf(mints, |used|)))
         && value == Value(v, used) >= target && r == Coins(Change(v, value - target))
  }

  /** An exact payment. */
  ghost predicate Exactly(v: seq<nat>, mints: seq<Mint>, target: int, selected: seq<Mint>, value: int) {
    var ideal := Greedy(v, HeldOf(mints, |v|), target);
    SpendsOk(v, mints, selected, ideal, |v|) && value == Value(v, ideal) == target
  }

  /** What SelectMintsFromList answers. An exact payment is chosen if there is one of few enough mints. Otherwise,
      unless nothing is selected, unused mints that cover the target are, `nCoinsReturned` is the number of coins in
      change, and `used`, which calculateChange chose, is of the coins held. */
  ghost predicate Selection(v: seq<nat>, nMax: nat, fMinimizeChange: bool, target: int, mints: seq<Mint>, held: Counts,
                            selected: seq<Mint>, value: int, nCoinsReturned: int, nNeededSpends: nat, used: Counts)
    requires |held| == |v|
  {
    var mine := HeldOf(mints, |v|);
    var ideal := Coins(Greedy(v, mine, target));
    if Payable(v, mine, target) && ideal <= nMax
    then Exactly(v, mints, target, selected, value) && nCoinsReturned == 0 && nNeededSpends == 0
    else Choice(v, nMax, fMinimizeChange, target, held, nCoinsReturned, used)
         && (nCoinsReturned != 0 ==> AtMost(used, held))
         && WithChange(v, mints, target, used, selected, value, nCoinsReturned)
         && nNeededSpends == if Payable(v, mine, target) then ideal else 0
  }

  /** SelectMintsFromList; `value0` is nSelectedValue on entry. Where coins of a denomination without unused mints are
      held, the source may loop for ever. */
  method SelectMintsFromList(v: seq<nat>, nValueTarget: int, value0: int, nMaxNumberOfSpends: nat,
                             fMinimizeChange: bool, mints: seq<Mint>, held: Counts)
    returns (selected: seq<Mint>, nSelectedValue: int, nCoinsReturned: int, nNeededSpends: nat, used: Counts)
    requires |held| == |v| > 0 && Chain(v) && Served(mints, held)
    ensures Selection(v, nMaxNumberOfSpends, fMinimizeChange, nValueTarget, mints, held, selected, nSelectedValue,
                      nCoinsReturned, nNeededSpends, used)
  {
    nNeededSpends, nSelectedValue := 0, value0;
    ghost var mine := HeldOf(mints, |v|);
    var fCanMeetExactly;
    fCanMeetExactly, used := GetIdealSpends(v, nValueTarget, mints, None(|v|));
    assert used == Greedy(v, mine, nValueTarget);
    if fCanMeetExactly {
      GreedyAtMost(v, mine, nValueTarget);
      selected, nSelectedValue := GetSpends(v, mints, used);
      if |selected| <= nMaxNumberOfSpends {
        nCoinsReturned := 0;
        return;
      }
      nNeededSpends := |selected|;
    }
    nCoinsReturned, used := CalculateChange(v, nMaxNumberOfSpends, fMinimizeChange, nValueTarget, held);
    selected, nSelectedValue := SpendChosen(v, nValueTarget, nSelectedValue, mints, held, nCoinsReturned, used);
  }

  method SpendChosen(v: seq<nat>, nValueTarget: int, value0: int, mints: seq<Mint>, held: Counts,
                     nCoinsReturned: int, used: Counts) returns (selected: seq<Mint>, nSelectedValue: int)
    requires |held| == |v| > 0 && Served(mints, held)
    requires nCoinsReturned == 0 || Covers(v, held, nValueTarget, used, nCoinsReturned)
    ensures WithChange(v, mints, nValueTarget, used, selected, nSelectedValue, nCoinsReturned)
    ensures nCoinsReturned != 0 ==> AtMost(used, held)
  {
    if nCoinsReturned == 0 {
      selected, nSelectedValue := [], value0;
    } else {
      assert Served(mints, used);
      selected, nSelectedValue := GetSpends(v, mints, used);
    }
  }
}

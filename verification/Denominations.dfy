/** Counts of coins per denomination, and greedy payment with values of which each divides the next. */
module Denominations {
  import opened Powers

  const CENT: nat := 1_000_000

  /** ZerocoinDenominationToAmount over zerocoinDenomList. */
  const AMOUNTS: seq<nat> :=
    [5 * CENT, 20 * CENT, 100 * CENT, 500 * CENT, 2000 * CENT, 10000 * CENT, 50000 * CENT, 200000 * CENT]

  // ---------------------------------------------------------------------------
  // Multiples
  // ---------------------------------------------------------------------------

  lemma {:induction false} MulMonotone(n: nat, v: nat, w: nat)
    requires v <= w
    ensures Mul(n, v) <= Mul(n, w)
  {
    if n > 0 { MulMonotone(n - 1, v, w); }
  }

  lemma {:induction false} MulOnce(n: nat, v: nat)
    ensures Mul(n, v) >= if n > 0 then v else 0
  {
  }

  lemma {:induction false} MulLess(m: nat, n: nat, v: nat)
    requires m < n
    ensures Mul(m, v) + v <= Mul(n, v)
  {
    MulSumLeft(m + 1, n - m - 1, v);
  }

  lemma {:induction false} AtLeast(n: nat, v: nat)
    requires v > 0
    ensures Mul(n, v) >= n
  {
    if n > 0 { AtLeast(n - 1, v); }
  }

  /** `b` is a multiple of `a`. */
  predicate Divides(a: nat, b: nat) {
    a > 0 && (b == 0 || (b >= a && Divides(a, b - a)))
  }

  lemma {:induction false} DividesMul(a: nat, n: nat)
    requires a > 0
    ensures Divides(a, Mul(n, a))
  {
    if n > 0 { DividesMul(a, n - 1); }
  }

  lemma {:induction false} DividesLess(a: nat, b: nat, n: nat)
    requires Divides(a, b) && Mul(n, a) <= b
    ensures Divides(a, b - Mul(n, a))
  {
    if n > 0 { DividesLess(a, b, n - 1); }
  }

  lemma {:induction false} DividesSum(a: nat, b: nat, c: nat)
    requires Divides(a, b) && Divides(a, c)
    ensures Divides(a, b + c)
    decreases b
  {
    if b > 0 { DividesSum(a, b - a, c); }
  }

  lemma {:induction false} DividesTrans(a: nat, b: nat, c: nat)
    requires Divides(a, b) && Divides(b, c)
    ensures Divides(a, c)
    decreases c
  {
    if c > 0 {
      DividesTrans(a, b, c - b);
      DividesSum(a, b, c - b);
    }
  }

  // ---------------------------------------------------------------------------
  // Denominations
  // ---------------------------------------------------------------------------

  ghost predicate Positive(v: seq<nat>) {
    forall i :: 0 <= i < |v| ==> v[i] > 0
  }

  /** Positive values, each a proper divisor of every later one. */
  ghost predicate Chain(v: seq<nat>) {
    && Positive(v)
    && (forall i, j :: 0 <= i < j < |v| ==> v[i] < v[j] && Divides(v[i], v[j]))
  }

  lemma {:induction false} ChainFromSteps(v: seq<nat>)
    requires |v| > 0 ==> v[0] > 0
    requires forall i :: 0 <= i < |v| - 1 ==> v[i] < v[i + 1] && Divides(v[i], v[i + 1])
    ensures Chain(v)
  {
    if |v| > 1 {
      var n := |v| - 1;
      assert v[n - 1] < v[n - 1 + 1] && Divides(v[n - 1], v[n - 1 + 1]);
      ChainFromSteps(v[..n]);
      assert forall i :: 0 <= i < n ==> v[..n][i] == v[i];
      forall i | 0 <= i < n ensures v[i] < v[n] && Divides(v[i], v[n]) {
        if i < n - 1 {
          assert Divides(v[..n][i], v[..n][n - 1]);
          DividesTrans(v[i], v[n - 1], v[n]);
        }
      }
    }
  }

  lemma {:induction false} FourOrFiveTimes(a: nat)
    requires a > 0
    ensures Divides(a, 4 * a) && Divides(a, 5 * a)
  {
    MulIs(4, a);
    MulIs(5, a);
    DividesMul(a, 4);
    DividesMul(a, 5);
  }

  lemma {:induction false} AmountsAreChain()
    ensures Chain(AMOUNTS)
  {
    forall i | 0 <= i < |AMOUNTS| - 1 ensures AMOUNTS[i] < AMOUNTS[i + 1] && Divides(AMOUNTS[i], AMOUNTS[i + 1]) {
      FourOrFiveTimes(AMOUNTS[i]);
    }
    ChainFromSteps(AMOUNTS);
  }

  /** How many coins there are of each denomination, lowest first. */
  type Counts = seq<nat>

  /** The value of the coins of the first `n` denominations. */
  function ValueTo(v: seq<nat>, c: Counts, n: nat): (r: nat)
    requires n <= |c| && n <= |v|
  {
    if n == 0 then 0 else ValueTo(v, c, n - 1) + Mul(c[n - 1], v[n - 1])
  }

  /** The number of coins of the first `n` denominations. */
  function CoinsTo(c: Counts, n: nat): (r: nat)
    requires n <= |c|
  {
    if n == 0 then 0 else CoinsTo(c, n - 1) + c[n - 1]
  }

  function Value(v: seq<nat>, c: Counts): nat
    requires |c| <= |v|
  {
    ValueTo(v, c, |c|)
  }

  function Coins(c: Counts): nat {
    CoinsTo(c, |c|)
  }

  lemma {:induction false} SamePrefix(v: seq<nat>, c: Counts, d: Counts, n: nat)
    requires n <= |c| && n <= |d| && n <= |v| && forall i :: 0 <= i < n ==> c[i] == d[i]
    ensures ValueTo(v, c, n) == ValueTo(v, d, n) && CoinsTo(c, n) == CoinsTo(d, n)
  {
    if n > 0 { SamePrefix(v, c, d, n - 1); }
  }

  lemma {:induction false} LastCoins(v: seq<nat>, low: Counts, g: nat)
    requires |low| < |v|
    ensures Value(v, low + [g]) == Value(v, low) + Mul(g, v[|low|]) && Coins(low + [g]) == Coins(low) + g
  {
    SamePrefix(v, low + [g], low, |low|);
  }

  ghost predicate AtMost(c: Counts, d: Counts) {
    |c| == |d| && forall i :: 0 <= i < |c| ==> c[i] <= d[i]
  }

  /** At most `n` denominations, with coins at most as many. */
  ghost predicate Within(c: Counts, d: Counts, n: nat) {
    |c| == n <= |d| && forall i :: 0 <= i < n ==> c[i] <= d[i]
  }

  lemma {:induction false} AtMostTrans(c: Counts, d: Counts, e: Counts)
    requires AtMost(c, d) && AtMost(d, e)
    ensures AtMost(c, e)
  {
  }

  function None(n: nat): (c: Counts)
    ensures |c| == n && forall i :: 0 <= i < n ==> c[i] == 0
  {
    seq(n, _ => 0)
  }

  lemma {:induction false} NoneValue(v: seq<nat>, c: Counts, n: nat)
    requires n <= |v| && n <= |c| && forall i :: 0 <= i < n ==> c[i] == 0
    ensures ValueTo(v, c, n) == 0 && CoinsTo(c, n) == 0
  {
    if n > 0 { NoneValue(v, c, n - 1); }
  }

  // ---------------------------------------------------------------------------
  // Adding and removing coins
  // ---------------------------------------------------------------------------

  /** `r` is `c` without `d`. */
  ghost predicate IsMinus(r: Counts, c: Counts, d: Counts) {
    |r| == |c| == |d| && forall i :: 0 <= i < |c| ==> r[i] == if c[i] < d[i] then 0 else c[i] - d[i]
  }

  /** Without other coins, as far as there are any. */
  function Minus(c: Counts, d: Counts): (r: Counts)
    requires |d| == |c|
    ensures IsMinus(r, c, d)
  {
    seq(|c|, i requires 0 <= i < |c| => if c[i] < d[i] then 0 else c[i] - d[i])
  }

  lemma {:induction false} MinusValue(v: seq<nat>, r: Counts, c: Counts, d: Counts, n: nat)
    requires n <= |c| <= |v| && AtMost(d, c) && IsMinus(r, c, d)
    ensures ValueTo(v, r, n) == ValueTo(v, c, n) - ValueTo(v, d, n)
    ensures CoinsTo(r, n) == CoinsTo(c, n) - CoinsTo(d, n)
  {
    if n > 0 {
      MinusValue(v, r, c, d, n - 1);
      MulSumLeft(r[n - 1], d[n - 1], v[n - 1]);
    }
  }

  lemma {:induction false} AtMostValue(v: seq<nat>, c: Counts, d: Counts, n: nat)
    requires n <= |c| <= |v| && AtMost(c, d)
    ensures ValueTo(v, c, n) <= ValueTo(v, d, n) && CoinsTo(c, n) <= CoinsTo(d, n)
  {
    if n > 0 {
      AtMostValue(v, c, d, n - 1);
      MulSumLeft(c[n - 1], d[n - 1] - c[n - 1], v[n - 1]);
    }
  }

  /** One more coin of denomination `i`. */
  lemma {:induction false} OneMoreTo(v: seq<nat>, c: Counts, d: Counts, i: nat, n: nat)
    requires i < |c| == |d| && n <= |c| <= |v| && d == c[i := c[i] + 1]
    ensures ValueTo(v, d, n) == ValueTo(v, c, n) + if i < n then v[i] else 0
    ensures CoinsTo(d, n) == CoinsTo(c, n) + if i < n then 1 else 0
  {
    if n > 0 { OneMoreTo(v, c, d, i, n - 1); }
  }

  lemma {:induction false} OneMore(v: seq<nat>, c: Counts, i: nat)
    requires i < |c| <= |v|
    ensures Value(v, c[i := c[i] + 1]) == Value(v, c) + v[i]
    ensures Coins(c[i := c[i] + 1]) == Coins(c) + 1
  {
    OneMoreTo(v, c, c[i := c[i] + 1], i, |c|);
  }

  // ---------------------------------------------------------------------------
  // Greedy payment
  // ---------------------------------------------------------------------------

  /** How many coins of value `v` a loop takes that stops below `v` or after `held` coins. */
  function Taken(amount: int, v: nat, held: nat): (g: nat)
    ensures g <= held
  {
    if amount >= v && held > 0 then 1 + Taken(amount - v, v, held - 1) else 0
  }

  lemma {:induction false} TakenMost(amount: int, v: nat, held: nat)
    requires v > 0
    ensures var g := Taken(amount, v, held);
            && (amount >= 0 ==> Mul(g, v) <= amount) && (amount < 0 ==> g == 0)
            && (g == held || amount - Mul(g, v) < v)
  {
    if amount >= v && held > 0 { TakenMost(amount - v, v, held - 1); }
  }

  /** The coins of the first `n` denominations taken from the highest down. */
  function GreedyTo(v: seq<nat>, held: Counts, n: nat, amount: int): (c: Counts)
    requires n <= |held| && n <= |v|
    ensures |c| == n
  {
    if n == 0 then []
    else
      var g := Taken(amount, v[n - 1], held[n - 1]);
      GreedyTo(v, held, n - 1, amount - Mul(g, v[n - 1])) + [g]
  }

  function Greedy(v: seq<nat>, held: Counts, amount: int): (c: Counts)
    requires |held| <= |v|
    ensures |c| == |held|
  {
    GreedyTo(v, held, |held|, amount)
  }

  /** The coins of the highest denomination, and greedy payment of the rest. */
  lemma {:induction false} GreedyStep(v: seq<nat>, held: Counts, n: nat, amount: int)
    returns (g: nat, rest: int, low: Counts)
    requires n < |held| && n < |v| && Positive(v)
    ensures g == Taken(amount, v[n], held[n]) <= held[n] && rest == amount - Mul(g, v[n])
    ensures (amount >= 0 ==> rest >= 0) && (amount < 0 ==> g == 0 && rest == amount)
    ensures g == held[n] || rest < v[n]
    ensures low == GreedyTo(v, held, n, rest) && GreedyTo(v, held, n + 1, amount) == low + [g]
    ensures Value(v, low + [g]) == Value(v, low) + Mul(g, v[n]) && Coins(low + [g]) == Coins(low) + g
  {
    g := Taken(amount, v[n], held[n]);
    TakenMost(amount, v[n], held[n]);
    rest := amount - Mul(g, v[n]);
    low := GreedyTo(v, held, n, rest);
    LastCoins(v, low, g);
  }

  lemma {:induction false} GreedyWithin(v: seq<nat>, held: Counts, n: nat, amount: int)
    requires n <= |held| && n <= |v|
    ensures Within(GreedyTo(v, held, n, amount), held, n)
  {
    if n > 0 {
      GreedyWithin(v, held, n - 1, amount - Mul(Taken(amount, v[n - 1], held[n - 1]), v[n - 1]));
    }
  }

  lemma {:induction false} GreedyAtMost(v: seq<nat>, held: Counts, amount: int)
    requires |held| <= |v|
    ensures AtMost(Greedy(v, held, amount), held)
  {
    GreedyWithin(v, held, |held|, amount);
  }

  lemma {:induction false} GreedyBelow(v: seq<nat>, held: Counts, n: nat, amount: int)
    requires n <= |held| && n <= |v| && Positive(v)
    ensures Value(v, GreedyTo(v, held, n, amount)) <= if amount < 0 then 0 else amount
  {
    if n > 0 {
      var g, rest, low := GreedyStep(v, held, n - 1, amount);
      GreedyBelow(v, held, n - 1, rest);
    }
  }

  /** What greedy payment leaves. */
  function GreedyRest(v: seq<nat>, held: Counts, n: nat, amount: int): int
    requires n <= |held| && n <= |v|
  {
    if n == 0 then amount
    else GreedyRest(v, held, n - 1, amount - Mul(Taken(amount, v[n - 1], held[n - 1]), v[n - 1]))
  }

  lemma {:induction false} GreedyRestIs(v: seq<nat>, held: Counts, n: nat, amount: int)
    requires n <= |held| && n <= |v| && Positive(v)
    ensures GreedyRest(v, held, n, amount) == amount - Value(v, GreedyTo(v, held, n, amount))
  {
    if n > 0 {
      var g, rest, low := GreedyStep(v, held, n - 1, amount);
      GreedyRestIs(v, held, n - 1, rest);
    }
  }

  /** `low` are the first counts of `all`. */
  ghost predicate Starts(all: Counts, low: Counts) {
    |low| <= |all| && forall i :: 0 <= i < |low| ==> all[i] == low[i]
  }

  lemma {:induction false} StartsLess(all: Counts, low: Counts, g: nat)
    requires Starts(all, low + [g])
    ensures Starts(all, low) && |low| < |all| && all[|low|] == g
  {
    assert forall i :: 0 <= i < |low| ==> (low + [g])[i] == low[i];
    assert (low + [g])[|low|] == g;
  }

  /** One step of a loop that pays from the highest denomination down. */
  lemma {:induction false} GreedyMove(v: seq<nat>, held: Counts, n: nat, amount: int, g: nat, all: Counts)
    requires n < |held| && n < |v| && Positive(v) && g == Taken(amount, v[n], held[n])
    requires Starts(all, GreedyTo(v, held, n + 1, amount))
    ensures Starts(all, GreedyTo(v, held, n, amount - Mul(g, v[n]))) && n < |all| && all[n] == g
  {
    var k, rest, low := GreedyStep(v, held, n, amount);
    StartsLess(all, low, g);
  }

  // ---------------------------------------------------------------------------
  // Greedy payment is best
  // ---------------------------------------------------------------------------

  ghost predicate AllDivide(v: seq<nat>, n: nat, amount: nat)
    requires n <= |v|
  {
    forall i :: 0 <= i < n ==> Divides(v[i], amount)
  }

  lemma {:induction false} AllDivideRest(v: seq<nat>, n: nat, rest: nat)
    requires n < |v| && Chain(v) && Divides(v[n], rest)
    ensures AllDivide(v, n, rest)
  {
    forall i | 0 <= i < n ensures Divides(v[i], rest) {
      DividesTrans(v[i], v[n], rest);
    }
  }

  /** Takes the coins of one value whose value divides an amount. */
  lemma {:induction false} FillTop(value: nat, held: nat, amount: nat) returns (g: nat, rest: nat)
    requires Divides(value, amount)
    ensures g <= held && rest == amount - Mul(g, value)
    ensures (rest == 0 || g == held) && Divides(value, rest)
  {
    g := Taken(amount, value, held);
    TakenMost(amount, value, held);
    rest := amount - Mul(g, value);
    DividesLess(value, amount, g);
  }

  /** Enough coins, all of values that divide an amount, hold that amount exactly. */
  lemma {:induction false} Fill(v: seq<nat>, c: Counts, n: nat, amount: nat) returns (f: Counts)
    requires n <= |c| && n <= |v| && Chain(v) && ValueTo(v, c, n) >= amount && AllDivide(v, n, amount)
    ensures Within(f, c, n) && Value(v, f) == amount
  {
    if n == 0 {
      return [];
    }
    var g, rest := FillTop(v[n - 1], c[n - 1], amount);
    var low;
    if rest == 0 {
      low := None(n - 1);
      NoneValue(v, low, n - 1);
    } else {
      AllDivideRest(v, n - 1, rest);
      low := Fill(v, c, n - 1, rest);
    }
    LastCoins(v, low, g);
    f := low + [g];
  }

  /** `k` coins of no more than `top` are worth no more than `k` times `top`. */
  lemma {:induction false} CoinsBound(v: seq<nat>, f: Counts, n: nat, top: nat)
    requires n <= |f| && n <= |v| && forall i :: 0 <= i < n ==> v[i] <= top
    ensures ValueTo(v, f, n) <= Mul(CoinsTo(f, n), top)
  {
    if n > 0 {
      CoinsBound(v, f, n - 1, top);
      MulMonotone(f[n - 1], v[n - 1], top);
      MulSumLeft(CoinsTo(f, n - 1), f[n - 1], top);
    }
  }

  /** Lower coins that are worth `k` coins of value v[n] contain at least `k` coins worth exactly that. */
  lemma {:induction false} TakeWorth(v: seq<nat>, low: Counts, k: nat) returns (rest: Counts)
    requires |low| < |v| && Chain(v) && Value(v, low) >= Mul(k, v[|low|])
    ensures AtMost(rest, low) && Value(v, rest) == Value(v, low) - Mul(k, v[|low|]) && Coins(rest) + k <= Coins(low)
  {
    var n := |low|;
    DividesMul(v[n], k);
    AllDivideRest(v, n, Mul(k, v[n]));
    var f := Fill(v, low, n, Mul(k, v[n]));
    CoinsBound(v, f, n, v[n]);
    if Coins(f) < k {
      MulLess(Coins(f), k, v[n]);
      assert false;
    }
    rest := Minus(low, f);
    MinusValue(v, rest, low, f, n);
  }

  /** The greedy choice: any payment can be changed to take as many of the highest coin as greedy does, without more
      coins. */
  lemma {:induction false} Exchange(v: seq<nat>, held: Counts, n: nat, low: Counts, k: nat, amount: nat)
    returns (rest: Counts)
    requires n < |held| && n < |v| && Chain(v) && Within(low, held, n) && k <= held[n]
    requires Value(v, low) + Mul(k, v[n]) == amount
    ensures var g := Taken(amount, v[n], held[n]);
            Within(rest, held, n) && Value(v, rest) == amount - Mul(g, v[n]) && Coins(rest) + g <= Coins(low) + k
  {
    var g := Taken(amount, v[n], held[n]);
    TakenMost(amount, v[n], held[n]);
    MoreNotTaken(amount, v[n], held[n], g, k, Value(v, low));
    MulSumLeft(g - k, k, v[n]);
    rest := TakeWorth(v, low, g - k);
  }

  lemma {:induction false} MoreNotTaken(amount: nat, v: nat, held: nat, g: nat, other: nat, low: nat)
    requires v > 0 && other <= held && low + Mul(other, v) == amount
    requires Mul(g, v) <= amount && (g == held || amount - Mul(g, v) < v)
    ensures other <= g
  {
    if other > g {
      MulLess(g, other, v);
      assert false;
    }
  }

  lemma {:induction false} DropLast(v: seq<nat>, held: Counts, n: nat, c: Counts) returns (low: Counts, k: nat)
    requires n < |v| && Within(c, held, n + 1)
    ensures Within(low, held, n) && k == c[n] <= held[n]
    ensures Value(v, c) == Value(v, low) + Mul(k, v[n]) && Coins(c) == Coins(low) + k
  {
    low, k := c[..n], c[n];
    SamePrefix(v, c, low, n);
  }

  /** Greedy pays every amount that can be paid, with the fewest coins. */
  lemma {:induction false} GreedyBest(v: seq<nat>, held: Counts, n: nat, c: Counts, amount: nat)
    requires n <= |held| && n <= |v| && Chain(v) && Within(c, held, n) && Value(v, c) == amount
    ensures Value(v, GreedyTo(v, held, n, amount)) == amount && Coins(GreedyTo(v, held, n, amount)) <= Coins(c)
  {
    if n > 0 {
      var lower, k := DropLast(v, held, n - 1, c);
      var other := Exchange(v, held, n - 1, lower, k, amount);
      var g, rest, low := GreedyStep(v, held, n - 1, amount);
      GreedyBest(v, held, n - 1, other, rest);
    }
  }

  /** Some of the held coins are worth exactly this amount. */
  ghost predicate Payable(v: seq<nat>, held: Counts, amount: int)
    requires |held| <= |v|
  {
    exists c :: AtMost(c, held) && Value(v, c) == amount
  }

  lemma {:induction false} PayableBy(v: seq<nat>, held: Counts, c: Counts, amount: int)
    requires |held| <= |v| && AtMost(c, held) && Value(v, c) == amount
    ensures Payable(v, held, amount)
  {
  }

  /** Greedy hits an amount exactly when some of the held coins are worth it. */
  lemma {:induction false} GreedyComplete(v: seq<nat>, held: Counts, amount: int)
    requires |held| <= |v| && Chain(v)
    ensures Value(v, Greedy(v, held, amount)) == amount <==> Payable(v, held, amount)
  {
    GreedyAtMost(v, held, amount);
    if Payable(v, held, amount) {
      var c :| AtMost(c, held) && Value(v, c) == amount;
      GreedyBest(v, held, |held|, c, amount);
    }
  }

  /** No coins of the same worth are fewer than greedy's. */
  lemma {:induction false} GreedyFewest(v: seq<nat>, held: Counts, amount: int, c: Counts)
    requires |held| <= |v| && Chain(v) && AtMost(c, held) && Value(v, c) == amount
    ensures Coins(Greedy(v, held, amount)) <= Coins(c)
  {
    GreedyBest(v, held, |held|, c, amount);
  }

  lemma {:induction false} TakenMore(a: int, b: int, v: nat, held: nat)
    requires v > 0 && a <= b
    ensures Taken(a, v, held) <= Taken(b, v, held)
  {
    if a >= v && held > 0 { TakenMore(a - v, b - v, v, held - 1); }
  }

  /** A larger amount is paid with at least as much. */
  lemma {:induction false} GreedyMore(v: seq<nat>, held: Counts, n: nat, a: int, b: int)
    requires n <= |held| && n <= |v| && Positive(v) && a <= b
    ensures Value(v, GreedyTo(v, held, n, a)) <= Value(v, GreedyTo(v, held, n, b))
  {
    if n > 0 {
      var g, rest, low := GreedyStep(v, held, n - 1, a);
      var g', rest', low' := GreedyStep(v, held, n - 1, b);
      TakenMore(a, b, v[n - 1], held[n - 1]);
      if g == g' {
        GreedyMore(v, held, n - 1, rest, rest');
      } else {
        MulLess(g, g', v[n - 1]);
        GreedyBelow(v, held, n - 1, rest);
      }
    }
  }

  /** Greedy pays the largest amount up to a target that the coins can pay at all. */
  lemma {:induction false} GreedyLargest(v: seq<nat>, held: Counts, target: int, amount: nat)
    requires |held| <= |v| && Chain(v) && Payable(v, held, amount) && amount <= target
    ensures amount <= Value(v, Greedy(v, held, target)) <= target
  {
    GreedyComplete(v, held, amount);
    GreedyMore(v, held, |held|, amount, target);
    GreedyBelow(v, held, |held|, target);
  }

  // ---------------------------------------------------------------------------
  // Change: greedy payment without limits
  // ---------------------------------------------------------------------------

  /** Of one value, no more coins are needed than the amount. */
  function Enough(amount: int): nat {
    if amount > 0 then amount else 0
  }

  /** The coins of the first `n` denominations taken from the highest down, without limits. */
  function ChangeTo(v: seq<nat>, n: nat, amount: int): (c: Counts)
    requires n <= |v|
    ensures |c| == n
  {
    if n == 0 then []
    else
      var g := Taken(amount, v[n - 1], Enough(amount));
      ChangeTo(v, n - 1, amount - Mul(g, v[n - 1])) + [g]
  }

  function Change(v: seq<nat>, amount: int): (c: Counts)
    ensures |c| == |v|
  {
    ChangeTo(v, |v|, amount)
  }

  lemma {:induction false} TakenEnough(amount: int, v: nat, held: nat, more: nat)
    requires v > 0 && amount <= held <= more
    ensures Taken(amount, v, held) == Taken(amount, v, more)
  {
    if amount >= v { TakenEnough(amount - v, v, held - 1, more - 1); }
  }

  /** Change is greedy payment from coins that are never too few. */
  lemma {:induction false} ChangeIsGreedy(v: seq<nat>, held: Counts, n: nat, amount: int)
    requires n <= |held| && n <= |v| && Positive(v) && forall i :: 0 <= i < n ==> held[i] >= amount
    ensures ChangeTo(v, n, amount) == GreedyTo(v, held, n, amount)
  {
    if n > 0 {
      TakenEnough(amount, v[n - 1], Enough(amount), held[n - 1]);
      var rest := amount - Mul(Taken(amount, v[n - 1], held[n - 1]), v[n - 1]);
      assert rest <= amount;
      ChangeIsGreedy(v, held, n - 1, rest);
    }
  }

  lemma {:induction false} ChangeToClose(v: seq<nat>, n: nat, amount: int)
    requires n <= |v| && Positive(v)
    ensures var paid := Value(v, ChangeTo(v, n, amount));
            if amount < 0 then paid == 0 else paid <= amount && (n > 0 ==> amount - paid < v[0])
  {
    if n > 0 {
      var g := Taken(amount, v[n - 1], Enough(amount));
      TakenMost(amount, v[n - 1], Enough(amount));
      if g == Enough(amount) { AtLeast(g, v[n - 1]); }
      var rest := amount - Mul(g, v[n - 1]);
      ChangeToClose(v, n - 1, rest);
      LastCoins(v, ChangeTo(v, n - 1, rest), g);
    }
  }

  /** Change is all of a positive amount but less than the lowest value, and nothing of a negative one. */
  lemma {:induction false} ChangeClose(v: seq<nat>, amount: int)
    requires |v| > 0 && Positive(v)
    ensures amount >= 0 ==> amount - v[0] < Value(v, Change(v, amount)) <= amount
    ensures amount < 0 ==> Value(v, Change(v, amount)) == 0
  {
    ChangeToClose(v, |v|, amount);
  }

  lemma {:induction false} ChangeAtMost(v: seq<nat>, amount: nat, change: Counts)
    requires |v| > 0 && Positive(v) && change == Change(v, amount)
    ensures Value(v, change) <= amount
  {
    ChangeClose(v, amount);
  }

  lemma {:induction false} CoinsZero(v: seq<nat>, c: Counts, n: nat)
    requires n <= |c| && n <= |v| && Positive(v)
    ensures CoinsTo(c, n) == 0 <==> ValueTo(v, c, n) == 0
  {
    if n > 0 {
      CoinsZero(v, c, n - 1);
      AtLeast(c[n - 1], v[n - 1]);
    }
  }

  lemma {:induction false} SmallPaysNothing(v: seq<nat>, c: Counts, n: nat)
    requires n <= |c| && n <= |v| && Chain(v) && |v| > 0 && ValueTo(v, c, n) < v[0]
    ensures ValueTo(v, c, n) == 0
  {
    if n > 0 {
      MulOnce(c[n - 1], v[n - 1]);
      SmallPaysNothing(v, c, n - 1);
    }
  }

  /** There is no coin in the change exactly when the amount is below the lowest value. */
  lemma {:induction false} NoChange(v: seq<nat>, amount: int)
    requires |v| > 0 && Chain(v)
    ensures Coins(Change(v, amount)) == 0 <==> amount < v[0]
  {
    ChangeClose(v, amount);
    CoinsZero(v, Change(v, amount), |v|);
    if 0 <= amount < v[0] {
      SmallPaysNothing(v, Change(v, amount), |v|);
    }
  }

  lemma {:induction false} TakenUnique(a: nat, b: nat, v: nat, held: nat)
    requires v > 0 && Mul(Taken(a, v, held), v) <= b <= a
    ensures Taken(b, v, held) == Taken(a, v, held)
  {
    var g, k := Taken(a, v, held), Taken(b, v, held);
    TakenMost(a, v, held);
    TakenMost(b, v, held);
    if k < g {
      MulLess(k, g, v);
      assert false;
    } else if g < k {
      MulLess(g, k, v);
      assert false;
    }
  }

  /** Paying what greedy paid takes the same coins. */
  lemma {:induction false} GreedySettled(v: seq<nat>, held: Counts, n: nat, amount: nat, paid: nat)
    requires n <= |held| && n <= |v| && Positive(v) && paid == Value(v, GreedyTo(v, held, n, amount))
    ensures GreedyTo(v, held, n, paid) == GreedyTo(v, held, n, amount)
  {
    if n > 0 {
      var g, rest, low := GreedyStep(v, held, n - 1, amount);
      GreedyBelow(v, held, n - 1, rest);
      TakenUnique(amount, paid, v[n - 1], held[n - 1]);
      GreedySettled(v, held, n - 1, rest, paid - Mul(g, v[n - 1]));
    }
  }

  lemma {:induction false} EachBelowValue(v: seq<nat>, c: Counts, i: nat, n: nat)
    requires i < n <= |c| && n <= |v| && Positive(v)
    ensures c[i] <= ValueTo(v, c, n)
  {
    AtLeast(c[n - 1], v[n - 1]);
    if i < n - 1 { EachBelowValue(v, c, i, n - 1); }
  }

  /** No other coins worth as much as the change are fewer. */
  lemma {:induction false} ChangeFewest(v: seq<nat>, amount: nat, c: Counts)
    requires Chain(v) && |c| == |v| && Value(v, c) == Value(v, Change(v, amount))
    ensures Coins(Change(v, amount)) <= Coins(c)
  {
    var all := seq(|v|, _ => amount);
    ChangeIsGreedy(v, all, |v|, amount);
    GreedyBelow(v, all, |v|, amount);
    forall i | 0 <= i < |c| ensures c[i] <= all[i] {
      EachBelowValue(v, c, i, |v|);
    }
    GreedyBest(v, all, |v|, c, Value(v, c));
    GreedySettled(v, all, |v|, amount, Value(v, c));
  }
}

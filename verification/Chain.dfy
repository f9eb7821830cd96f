/** CBlockIndex and CChain: blocks linked to their predecessors, and the active chain as an index by height. */
module Chain {
  import opened Powers

  // ---------------------------------------------------------------------------
  // Skip heights
  // ---------------------------------------------------------------------------

  /** n & (n - 1): without its lowest bit that is set. */
  function InvertLowestOne(n: nat): (r: nat)
    ensures n > 0 ==> r < n
    ensures n % 2 == 0 ==> r % 2 == 0
  {
    if n == 0 then 0 else if n % 2 == 1 then n - 1 else 2 * InvertLowestOne(n / 2)
  }

  /** The height that pskip of a block leads to. */
  function GetSkipHeight(height: nat): (h: nat)
    ensures height > 0 ==> h < height
  {
    if height < 2 then 0
    else if height % 2 == 1 then InvertLowestOne(InvertLowestOne(height - 1)) + 1
    else InvertLowestOne(height)
  }

  /** Clearing the lowest bit that is set. */
  lemma {:induction false} LowestCleared(q: nat, k: nat)
    ensures InvertLowestOne((2 * q + 1) * Pow2(k)) == 2 * q * Pow2(k)
  {
    if k > 0 {
      LowestCleared(q, k - 1);
      Associate(2 * q + 1, Pow2(k - 1));
      Associate(2 * q, Pow2(k - 1));
    }
  }

  /** The skip height of an even height is the height without its lowest bit. */
  lemma {:induction false} EvenSkipHeight(q: nat, k: nat)
    requires k > 0
    ensures GetSkipHeight((2 * q + 1) * Pow2(k)) == 2 * q * Pow2(k)
  {
    LowestCleared(q, k);
    Associate(2 * q + 1, Pow2(k - 1));
    MulLeft(1, 2 * q + 1, Pow2(k));
  }

  lemma {:induction false} LowestClearedTwice(q: nat, l: nat, k: nat, r: nat)
    requires 2 * r == (2 * q + 1) * Pow2(l)
    ensures InvertLowestOne(InvertLowestOne((2 * r + 1) * Pow2(k))) == 2 * q * Pow2(l + k)
  {
    LowestCleared(r, k);
    Pow2Sum(l, k);
    MulAssoc(2 * q + 1, Pow2(l), Pow2(k));
    LowestCleared(q, l + k);
  }

  lemma {:induction false} OddSkip(n: nat, h: nat)
    requires h == n + 1 && n % 2 == 0 && n >= 2
    ensures GetSkipHeight(h) == InvertLowestOne(InvertLowestOne(n)) + 1
  {
  }

  /** That of an odd height is the height without the two lowest bits above the last. */
  lemma {:induction false} OddSkipHeight(q: nat, l: nat, k: nat, h: nat)
    requires k > 0 && l > 0 && h == ((2 * q + 1) * Pow2(l) + 1) * Pow2(k) + 1
    ensures GetSkipHeight(h) == 2 * q * Pow2(l + k) + 1
  {
    var r := (2 * q + 1) * Pow2(l - 1);
    Associate(2 * q + 1, Pow2(l - 1));
    OddSkip((2 * r + 1) * Pow2(k), h) by { EvenPart(2 * r + 1, k); }
    LowestClearedTwice(q, l, k, r);
  }

  lemma {:induction false} EvenPart(m: nat, k: nat)
    requires k > 0 && m > 0
    ensures m * Pow2(k) % 2 == 0 && m * Pow2(k) >= 2
  {
    Associate(m, Pow2(k - 1));
    MulLeft(1, m, Pow2(k));
  }

  // ---------------------------------------------------------------------------
  // Blocks
  // ---------------------------------------------------------------------------

  /** CBlockIndex: its links are set once, when it is entered. */
  class BlockIndex {
    const hash: nat
    const nHeight: nat
    const pprev: BlockIndex?
    const pskip: BlockIndex?

    /** Enters a block after its predecessor, and builds its skip pointer. */
    constructor (hash: nat, prev: BlockIndex?)
      requires prev != null ==> Entered(prev)
      ensures Entered(this) && this.hash == hash && pprev == prev
    {
      var skip: BlockIndex? := null;
      var h := if prev == null then 0 else prev.nHeight + 1;
      if prev != null {
        skip := prev.GetAncestor(GetSkipHeight(h));
      }
      this.hash := hash;
      nHeight := h;
      pprev := prev;
      pskip := skip;
    }

    /** GetAncestor: walks back over skip pointers where they do not overshoot. */
    method GetAncestor(height: int) returns (r: BlockIndex?)
      requires Entered(this)
      ensures r == if 0 <= height <= nHeight then Ancestor(this, height) else null
    {
      if height > nHeight || height < 0 {
        return null;
      }
      var pindexWalk: BlockIndex := this;
      var heightWalk := nHeight;
      while heightWalk > height
        invariant height <= heightWalk == pindexWalk.nHeight <= nHeight
        invariant Entered(pindexWalk) && Ancestor(this, height) == Ancestor(pindexWalk, height)
      {
        var heightSkip := GetSkipHeight(heightWalk);
        var heightSkipPrev := GetSkipHeight(heightWalk - 1);
        if heightSkip == height
           || (heightSkip > height && !(heightSkipPrev < heightSkip - 2 && heightSkipPrev >= height)) {
          AncestorOfAncestor(pindexWalk, heightSkip, height);
          AncestorEntered(pindexWalk, heightSkip);
          pindexWalk := pindexWalk.pskip;
          heightWalk := heightSkip;
        } else {
          pindexWalk := pindexWalk.pprev;
          heightWalk := heightWalk - 1;
        }
      }
      return pindexWalk;
    }
  }

  /** A block is linked down to a block of height 0, one height at a time. */
  ghost predicate Rooted(b: BlockIndex)
    decreases b.nHeight
  {
    if b.nHeight == 0 then b.pprev == null
    else b.pprev != null && b.pprev.nHeight == b.nHeight - 1 && Rooted(b.pprev)
  }

  /** The ancestor at a height. */
  ghost function Ancestor(b: BlockIndex, height: nat): (r: BlockIndex)
    requires Rooted(b) && height <= b.nHeight
    ensures r.nHeight == height
    decreases b.nHeight
  {
    if height == b.nHeight then b else Ancestor(b.pprev, height)
  }

  /** The skip pointers of a block and of its ancestors lead to their skip heights. */
  ghost predicate Skips(b: BlockIndex)
    requires Rooted(b)
    decreases b.nHeight
  {
    b.nHeight == 0 || (b.pskip == Ancestor(b.pprev, GetSkipHeight(b.nHeight)) && Skips(b.pprev))
  }

  /** What holds of every block that was entered into the index. */
  ghost predicate Entered(b: BlockIndex) {
    Rooted(b) && Skips(b)
  }

  lemma {:induction false} AncestorEntered(b: BlockIndex, h: nat)
    requires Entered(b) && h <= b.nHeight
    ensures Entered(Ancestor(b, h))
    decreases b.nHeight
  {
    if h < b.nHeight { AncestorEntered(b.pprev, h); }
  }

  lemma {:induction false} AncestorRooted(b: BlockIndex, h: nat)
    requires Rooted(b) && h <= b.nHeight
    ensures Rooted(Ancestor(b, h))
    decreases b.nHeight
  {
    if h < b.nHeight { AncestorRooted(b.pprev, h); }
  }

  lemma {:induction false} AncestorOfAncestor(b: BlockIndex, m: nat, n: nat)
    requires Rooted(b) && n <= m <= b.nHeight
    ensures Rooted(Ancestor(b, m)) && Ancestor(Ancestor(b, m), n) == Ancestor(b, n)
    decreases b.nHeight
  {
    if m < b.nHeight { AncestorOfAncestor(b.pprev, m, n); }
  }

  /** All ancestors of a block, lowest first. */
  ghost function PathTo(b: BlockIndex?): (p: seq<BlockIndex?>)
    requires b != null ==> Rooted(b)
    ensures |p| == if b == null then 0 else b.nHeight + 1
    decreases if b == null then 0 else b.nHeight + 1
  {
    if b == null then [] else PathTo(b.pprev) + [b]
  }

  lemma {:induction false} PathAt(b: BlockIndex, i: nat)
    requires Rooted(b) && i <= b.nHeight
    ensures PathTo(b)[i] == Ancestor(b, i)
    decreases b.nHeight
  {
    if i < b.nHeight { PathAt(b.pprev, i); }
  }

  // ---------------------------------------------------------------------------
  // The locator
  // ---------------------------------------------------------------------------

  /** The heights of a locator from height `h` on, when `size` blocks are listed. */
  function LocatorHeights(h: nat, nStep: nat, size: nat): (r: seq<nat>)
    requires nStep > 0
    ensures |r| > 0 && r[0] == h
    decreases h
  {
    if h == 0 then [0]
    else [h] + LocatorHeights(Max(h - nStep, 0), if size + 1 > 10 then 2 * nStep else nStep, size + 1)
  }

  /** A locator descends strictly, and ends at height 0. */
  lemma {:induction false} LocatorDescends(h: nat, nStep: nat, size: nat)
    requires nStep > 0
    ensures var r := LocatorHeights(h, nStep, size);
            r[|r| - 1] == 0 && forall i, j :: 0 <= i < j < |r| ==> r[i] > r[j]
    decreases h
  {
    if h > 0 {
      var h', nStep' := Max(h - nStep, 0), if size + 1 > 10 then 2 * nStep else nStep;
      LocatorDescends(h', nStep', size + 1);
      var rest := LocatorHeights(h', nStep', size + 1);
      assert LocatorHeights(h, nStep, size) == [h] + rest;
      forall i, j | 0 <= i < j < |rest| + 1 ensures ([h] + rest)[i] > ([h] + rest)[j] {
        if i == 0 {
          assert j == 1 || rest[0] > rest[j - 1];
        } else {
          assert rest[i - 1] > rest[j - 1];
        }
      }
    }
  }

  /** Once the steps double, few blocks are listed. */
  lemma {:induction false} LocatorTail(h: nat, k: nat, size: nat)
    requires size >= 10 && h > 0
    ensures var n := |LocatorHeights(h, Pow2(k), size)|;
            n >= 2 && Pow2(k + n - 2) <= h + Pow2(k) - 1
    decreases h
  {
    var p := Pow2(k);
    assert Pow2(k + 1) == 2 * p;
    if h > p {
      LocatorTail(h - p, k + 1, size + 1);
    } else {
      assert |LocatorHeights(h, p, size)| == 2;
    }
  }

  /** The first steps go back by one. */
  lemma {:induction false} LocatorHead(h: nat, size: nat)
    requires size <= 10
    ensures var n := |LocatorHeights(h, 1, size)|;
            n == if h <= 10 - size then h + 1 else 10 - size + |LocatorHeights(h - (10 - size), 1, 10)|
    decreases 10 - size
  {
    if size < 10 && h > 0 { LocatorHead(h - 1, size + 1); }
  }

  /** A locator lists at most 12 blocks and the binary logarithm of the height. */
  lemma {:induction false} LocatorShort(h: nat)
    ensures var n := |LocatorHeights(h, 1, 0)|; n <= 12 || Pow2(n - 12) <= h
  {
    LocatorHead(h, 0);
    if h > 10 {
      LocatorTail(h - 10, 0, 10);
    }
  }

  /** The i-th height of a locator: eleven steps back by one, then steps that double, ending at 0. */
  function LocatorHeight(h: nat, i: nat): int {
    if i <= 11 then Max(h - i, 0) else Max(h - 9 - Pow2(i - 10), 0)
  }

  /** The step from the height that is listed after `size` others. */
  function StepAt(size: nat): nat {
    if size <= 10 then 1 else Pow2(size - 10)
  }

  lemma {:induction false} NextLocatorHeight(h: nat, size: nat)
    ensures Max(LocatorHeight(h, size) - StepAt(size), 0) == LocatorHeight(h, size + 1)
    ensures StepAt(size + 1) == if size + 1 > 10 then 2 * StepAt(size) else StepAt(size)
  {
    assert Pow2(1) == 2 * Pow2(0) == 2 && Pow2(2) == 2 * Pow2(1);
  }

  lemma {:induction false} LocatorFromSize(h: nat, size: nat, i: nat)
    requires LocatorHeight(h, size) >= 0 && StepAt(size) > 0
    requires size <= i < size + |LocatorHeights(LocatorHeight(h, size), StepAt(size), size)|
    ensures LocatorHeights(LocatorHeight(h, size), StepAt(size), size)[i - size] == LocatorHeight(h, i)
    decreases i - size
  {
    NextLocatorHeight(h, size);
    if size < i {
      LocatorFromSize(h, size + 1, i);
    }
  }

  /** Which heights a locator lists. */
  lemma {:induction false} LocatorAt(h: nat, i: nat)
    requires i < |LocatorHeights(h, 1, 0)|
    ensures LocatorHeights(h, 1, 0)[i] == if i <= 11 then Max(h - i, 0) else Max(h - 9 - Pow2(i - 10), 0)
  {
    LocatorFromSize(h, 0, i);
  }

  /** The hashes of the ancestors at these heights. */
  ghost function Hashes(b: BlockIndex, heights: seq<nat>): (r: seq<nat>)
    requires Rooted(b) && forall i :: 0 <= i < |heights| ==> heights[i] <= b.nHeight
    ensures |r| == |heights| && forall i :: 0 <= i < |heights| ==> r[i] == Ancestor(b, heights[i]).hash
  {
    seq(|heights|, i requires 0 <= i < |heights| => Ancestor(b, heights[i]).hash)
  }

  // ---------------------------------------------------------------------------
  // CChain
  // ---------------------------------------------------------------------------

  /** A chain that is the path to some block, or empty. */
  ghost predicate IsPath(v: seq<BlockIndex?>) {
    forall i :: 0 <= i < |v| ==>
      v[i] != null && v[i].nHeight == i && Rooted(v[i]) && v[i].pprev == if i == 0 then null else v[i - 1]
  }

  lemma {:induction false} PathIs(v: seq<BlockIndex?>, i: nat, j: nat)
    requires IsPath(v) && i <= j < |v|
    ensures v[i] == Ancestor(v[j], i)
    decreases j
  {
    if i < j { PathIs(v, i, j - 1); }
  }

  lemma {:induction false} PathToIsPath(b: BlockIndex)
    requires Rooted(b)
    ensures IsPath(PathTo(b))
    decreases b.nHeight
  {
    if b.pprev != null { PathToIsPath(b.pprev); }
  }

  class CChain {
    var vChain: seq<BlockIndex?>

    ghost predicate Valid()
      reads this
    {
      IsPath(vChain)
    }

    constructor ()
      ensures Valid() && vChain == []
    {
      vChain := [];
    }

    /** operator[]. */
    function At(nHeight: int): (r: BlockIndex?)
      reads this
    {
      if nHeight < 0 || nHeight >= |vChain| then null else vChain[nHeight]
    }

    function Height(): int
      reads this
    {
      |vChain| - 1
    }

    function Tip(): BlockIndex?
      reads this
    {
      if |vChain| < 1 then null else vChain[|vChain| - 1]
    }

    predicate Contains(pindex: BlockIndex)
      reads this
    {
      At(pindex.nHeight) == pindex
    }

    function Next(pindex: BlockIndex): BlockIndex?
      reads this
    {
      if Contains(pindex) then At(pindex.nHeight + 1) else null
    }

    /** SetTip: despite the early stop, the chain is all ancestors of the new tip. */
    method SetTip(pindex0: BlockIndex?)
      requires Valid() && (pindex0 != null ==> Rooted(pindex0))
      modifies this
      ensures Valid() && vChain == PathTo(pindex0)
    {
      if pindex0 == null {
        vChain := [];
        return;
      }
      var tip: BlockIndex := pindex0;
      var pindex: BlockIndex? := pindex0;
      ghost var was := vChain;
      var n := tip.nHeight + 1;
      vChain := if n <= |vChain| then vChain[..n] else vChain + seq(n - |vChain|, _ => null);
      ghost var start := vChain;
      while pindex != null && vChain[pindex.nHeight] != pindex
        invariant |vChain| == n && |start| == n
        invariant pindex != null ==>
                    pindex.nHeight <= tip.nHeight && Rooted(pindex) && pindex == Ancestor(tip, pindex.nHeight)
        invariant var low := if pindex == null then -1 else pindex.nHeight;
                  && (forall k :: low < k < n ==> vChain[k] == Ancestor(tip, k))
                  && (forall k :: 0 <= k <= low ==> vChain[k] == start[k])
        decreases if pindex == null then 0 else pindex.nHeight + 1
      {
        vChain := vChain[pindex.nHeight := pindex];
        PrevIsAncestor(tip, pindex.nHeight);
        pindex := pindex.pprev;
      }
      forall k | 0 <= k < n ensures vChain[k] == PathTo(tip)[k] {
        PathAt(tip, k);
        if pindex != null && k <= pindex.nHeight {
          PathIs(was, k, pindex.nHeight);
          AncestorOfAncestor(tip, pindex.nHeight, k);
        }
      }
      assert vChain == PathTo(tip);
      PathToIsPath(tip);
    }

    /** None of a block's ancestors above a height is in the chain. */
    ghost predicate NoneShared(b: BlockIndex, above: int)
      requires Rooted(b)
      reads this
    {
      forall h :: 0 <= h <= b.nHeight && h > above ==> !Contains(Ancestor(b, h))
    }

    /** FindFork: the highest common block of the chain and a block's ancestors, if there is one. */
    method FindFork(pindex0: BlockIndex?) returns (r: BlockIndex?)
      requires Valid() && (pindex0 != null ==> Entered(pindex0))
      ensures pindex0 == null ==> r == null
      ensures pindex0 != null && r == null ==> NoneShared(pindex0, -1)
      ensures pindex0 != null && r != null ==>
                Contains(r) && r.nHeight <= pindex0.nHeight && r == Ancestor(pindex0, r.nHeight)
                && NoneShared(pindex0, r.nHeight)
    {
      if pindex0 == null {
        return null;
      }
      var from: BlockIndex := pindex0;
      var pindex: BlockIndex? := pindex0;
      if from.nHeight > Height() {
        pindex := from.GetAncestor(Height());
        if Height() >= 0 { AncestorRooted(from, Height()); }
      }
      ghost var above: int := if pindex == null then -1 else pindex.nHeight;
      while pindex != null && !Contains(pindex)
        invariant pindex != null ==> Rooted(pindex) && pindex.nHeight == above <= from.nHeight
        invariant pindex != null ==> pindex == Ancestor(from, above)
        invariant pindex == null ==> above == -1
        invariant NoneShared(from, above)
        decreases above
      {
        PrevIsAncestor(from, above);
        pindex := pindex.pprev;
        above := above - 1;
      }
      return pindex;
    }

    /** GetLocator: the hashes of ancestors of the block, or of the tip, at descending heights. */
    method GetLocator(pindex0: BlockIndex?) returns (vHave: seq<nat>)
      requires Valid() && (pindex0 != null ==> Entered(pindex0)) && (Tip() != null ==> Entered(Tip()))
      ensures var start := if pindex0 == null then Tip() else pindex0;
              if start == null then vHave == []
              else LocatorBelow(start.nHeight, 1, 0) && vHave == Hashes(start, LocatorHeights(start.nHeight, 1, 0))
    {
      vHave := [];
      if pindex0 == null && Tip() == null {
        return;
      }
      var start: BlockIndex := if pindex0 == null then Tip() else pindex0;
      LocatorIsBelow(start.nHeight, 1, 0);
      vHave := LocatorFrom(start, LocatorHeights(start.nHeight, 1, 0));
    }

    /** The loop of GetLocator. */
    method LocatorFrom(start: BlockIndex, ghost all: seq<nat>) returns (vHave: seq<nat>)
      requires Valid() && Entered(start) && all == LocatorHeights(start.nHeight, 1, 0)
      ensures Listed(vHave, start, all) && |vHave| == |all|
    {
      vHave := [];
      var pindex: BlockIndex := start;
      var nStep := 1;
      assert all[0..] == all;
      var more := true;
      while more
        invariant nStep > 0 && Entered(pindex) && pindex.nHeight <= start.nHeight
        invariant pindex == Ancestor(start, pindex.nHeight)
        invariant Listed(vHave, start, all)
        invariant more ==> all[|vHave|..] == LocatorHeights(pindex.nHeight, nStep, |vHave|)
        invariant !more ==> |vHave| == |all|
        decreases more, pindex.nHeight
      {
        LocatorNext(all, |vHave|, pindex.nHeight, nStep);
        vHave := vHave + [pindex.hash];
        if pindex.nHeight == 0 {
          more := false;
        } else {
          var nHeight := Max(pindex.nHeight - nStep, 0);
          AncestorOfAncestor(start, pindex.nHeight, nHeight);
          AncestorEntered(pindex, nHeight);
          pindex := StepBack(pindex, nHeight);
          if |vHave| > 10 {
            nStep := nStep * 2;
          }
        }
      }
    }

    /** A step back, over the chain if the block is in it. */
    method StepBack(pindex: BlockIndex, nHeight: nat) returns (r: BlockIndex)
      requires Valid() && Entered(pindex) && nHeight <= pindex.nHeight
      ensures r == Ancestor(pindex, nHeight)
    {
      if Contains(pindex) {
        PathIs(vChain, nHeight, pindex.nHeight);
        r := At(nHeight);
      } else {
        r := pindex.GetAncestor(nHeight);
      }
    }
  }

  ghost predicate Listed(vHave: seq<nat>, start: BlockIndex, all: seq<nat>)
    requires Rooted(start)
  {
    |vHave| <= |all|
    && forall i :: 0 <= i < |vHave| ==> all[i] <= start.nHeight && vHave[i] == Ancestor(start, all[i]).hash
  }

  lemma {:induction false} LocatorNext(all: seq<nat>, n: nat, h: nat, nStep: nat)
    requires nStep > 0 && n <= |all| && all[n..] == LocatorHeights(h, nStep, n)
    ensures n < |all| && all[n] == h && (h == 0 ==> n + 1 == |all|)
    ensures h > 0 ==>
              all[n + 1..] == LocatorHeights(Max(h - nStep, 0), if n + 1 > 10 then 2 * nStep else nStep, n + 1)
  {
    assert all[n] == all[n..][0];
    assert all[n..][1..] == all[n + 1..];
  }

  lemma {:induction false} PrevIsAncestor(b: BlockIndex, h: nat)
    requires Rooted(b) && h <= b.nHeight
    ensures var a := Ancestor(b, h);
            Rooted(a) && if h == 0 then a.pprev == null else a.pprev == Ancestor(b, h - 1) && Rooted(Ancestor(b, h - 1))
  {
    AncestorRooted(b, h);
    if h > 0 { AncestorOfAncestor(b, h, h - 1); }
  }

  ghost predicate LocatorBelow(h: nat, nStep: nat, size: nat)
    requires nStep > 0
  {
    forall i :: 0 <= i < |LocatorHeights(h, nStep, size)| ==> LocatorHeights(h, nStep, size)[i] <= h
  }

  lemma {:induction false} LocatorIsBelow(h: nat, nStep: nat, size: nat)
    requires nStep > 0
    ensures LocatorBelow(h, nStep, size)
  {
    LocatorDescends(h, nStep, size);
  }

  /** Below the fork the chain and the block's ancestors agree, above it they differ. */
  lemma {:induction false} ForkSplits(v: seq<BlockIndex?>, b: BlockIndex, fork: nat, h: nat)
    requires IsPath(v) && Rooted(b) && h <= fork < |v| && fork <= b.nHeight && v[fork] == Ancestor(b, fork)
    ensures v[h] == Ancestor(b, h)
  {
    PathIs(v, h, fork);
    AncestorOfAncestor(b, fork, h);
  }
}

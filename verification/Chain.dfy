/** The block tree and the active chain: skip-list ancestors, tip changes, fork
    points and locators (src/chain.cpp, src/chain.h). */
module Chain {
  import opened Common
  import opened Limbs

  /** Turns the lowest one bit of a number into a zero; 0 & -1 is 0. */
  function InvertLowestOne(n: nat): nat {
    if n == 0 then 0 else And(n, n - 1)
  }

  lemma InvertOdd(m: nat)
    ensures InvertLowestOne(2 * m + 1) == 2 * m
  {
    assert (2 * m + 1) / 2 == m && (2 * m) / 2 == m;
    AndSelf(m);
  }

  lemma InvertEven(n: nat)
    ensures InvertLowestOne(2 * n) == 2 * InvertLowestOne(n)
  {
    if n > 0 { assert (2 * n) / 2 == n && (2 * n - 1) / 2 == n - 1; }
  }

  /** An odd multiple of a power of two loses that power. */
  lemma {:induction false} InvertLowestOneExact(m: nat, k: nat)
    ensures Mul(2 * m + 1, Pow2(k)) >= 0
    ensures InvertLowestOne(Mul(2 * m + 1, Pow2(k))) == Mul(2 * m, Pow2(k))
    decreases k
  {
    if k == 0 {
      InvertOdd(m);
    } else {
      InvertLowestOneExact(m, k - 1);
      Doubled(2 * m + 1, Pow2(k - 1));
      Doubled(2 * m, Pow2(k - 1));
      hide Mul, InvertLowestOne;
      InvertEven(Mul(2 * m + 1, Pow2(k - 1)));
    }
  }

  lemma Doubled(a: int, p: int)
    ensures Mul(a, 2 * p) == 2 * Mul(a, p)
  {
  }

  function SkipHeight(height: int): int {
    if height < 2 then 0
    else if height % 2 == 1 then InvertLowestOne(InvertLowestOne(height - 1)) + 1
    else InvertLowestOne(height)
  }

  lemma SkipHeightBelow(height: int)
    requires height >= 1
    ensures 0 <= SkipHeight(height) < height
  {
    if height >= 2 {
      AndBound(height, height - 1);
      AndBound(height - 1, height - 2);
      var n := InvertLowestOne(height - 1);
      if n > 0 { AndBound(n, n - 1); }
    }
  }

  class BlockIndex {
    const pprev: BlockIndex?
    const nHeight: int
    const hash: nat
    var pskip: BlockIndex?
    /** This block and everything below it. */
    ghost const line: set<BlockIndex>

    constructor (pprev: BlockIndex?, hash: nat)
      requires pprev != null ==> pprev.Linked()
      ensures Linked() && this.pprev == pprev && this.hash == hash && pskip == null
    {
      this.pprev := pprev;
      this.nHeight := if pprev == null then 0 else pprev.nHeight + 1;
      this.hash := hash;
      pskip := null;
      line := if pprev == null then {this} else {this} + pprev.line;
    }

    /** Heights count the blocks down to a genesis block. */
    ghost predicate Linked()
      decreases nHeight
    {
      if pprev == null then nHeight == 0 && line == {this}
      else nHeight >= 1 && pprev.nHeight == nHeight - 1 && line == {this} + pprev.line && pprev.Linked()
    }

    /** The block reached by walking pprev down to a height. */
    ghost function Ancestor(height: int): BlockIndex
      requires Linked() && 0 <= height <= nHeight
      decreases nHeight
    {
      if height == nHeight then this else pprev.Ancestor(height)
    }

    /** Every skip pointer down the line is absent or as BuildSkip sets it. */
    ghost predicate SkipsOk()
      requires Linked()
      reads line
      decreases nHeight
    {
      if pprev == null then pskip == null
      else
        SkipHeightBelow(nHeight);
        (pskip == null || pskip == Ancestor(SkipHeight(nHeight))) && pprev.SkipsOk()
    }
  }

  lemma {:induction false} AncestorFacts(b: BlockIndex, height: int)
    requires b.Linked() && 0 <= height <= b.nHeight
    ensures var a := b.Ancestor(height); a.Linked() && a.nHeight == height
    ensures var a := b.Ancestor(height); forall h :: 0 <= h <= height ==> a.Ancestor(h) == b.Ancestor(h)
    ensures b.SkipsOk() ==> b.Ancestor(height).SkipsOk()
    decreases b.nHeight
  {
    if height < b.nHeight {
      AncestorFacts(b.pprev, height);
    }
  }

  lemma {:induction false} LineHeights(b: BlockIndex)
    requires b.Linked()
    ensures forall x :: x in b.line ==> x.nHeight <= b.nHeight
    decreases b.nHeight
  {
    if b.pprev != null { LineHeights(b.pprev); }
  }

  /** The skip list gives the same block as walking pprev. */
  method GetAncestor(b: BlockIndex, height: int) returns (r: BlockIndex?)
    requires b.Linked() && b.SkipsOk()
    ensures r == if 0 <= height <= b.nHeight then b.Ancestor(height) else null
  {
    if height > b.nHeight || height < 0 { return null; }
    var walk := b;
    var heightWalk := b.nHeight;
    while heightWalk > height
      invariant height <= heightWalk <= b.nHeight && walk == b.Ancestor(heightWalk)
    {
      AncestorFacts(b, heightWalk);
      SkipHeightBelow(heightWalk);
      var skip := SkipHeight(heightWalk);
      var skipPrev := SkipHeight(heightWalk - 1);
      if walk.pskip != null && (skip == height || (skip > height && !(skipPrev < skip - 2 && skipPrev >= height))) {
        assert walk.pskip == walk.Ancestor(skip) == b.Ancestor(skip);
        walk := walk.pskip;
        heightWalk := skip;
      } else {
        assert walk.pprev != null;
        assert walk.pprev == walk.Ancestor(heightWalk - 1) == b.Ancestor(heightWalk - 1);
        walk := walk.pprev;
        heightWalk := heightWalk - 1;
      }
    }
    return walk;
  }

  method BuildSkip(b: BlockIndex)
    requires b.Linked() && (if b.pprev == null then b.pskip == null else b.pprev.SkipsOk())
    modifies b`pskip
    ensures b.SkipsOk()
    ensures b.pprev != null ==> 0 <= SkipHeight(b.nHeight) < b.nHeight && b.pskip == b.Ancestor(SkipHeight(b.nHeight))
  {
    if b.pprev != null {
      SkipHeightBelow(b.nHeight);
      LineHeights(b.pprev);
      assert b !in b.pprev.line;
      var s := GetAncestor(b.pprev, SkipHeight(b.nHeight));
      b.pskip := s;
    }
  }

  // ---- the active chain ----

  /** The block at its height, with its parent one below. */
  ghost predicate Placed(chain: seq<BlockIndex?>, i: int)
    requires 0 <= i < |chain|
  {
    chain[i] != null && chain[i].Linked() && chain[i].nHeight == i && (i > 0 ==> chain[i].pprev == chain[i - 1])
  }

  ghost predicate IsPath(chain: seq<BlockIndex?>) {
    forall i :: 0 <= i < |chain| ==> Placed(chain, i)
  }

  ghost predicate PathTo(chain: seq<BlockIndex?>, b: BlockIndex)
    requires b.Linked()
  {
    |chain| == b.nHeight + 1 && forall i :: 0 <= i <= b.nHeight ==> chain[i] == b.Ancestor(i)
  }

  lemma {:induction false} LinkedHeight(b: BlockIndex)
    requires b.Linked()
    ensures b.nHeight >= 0
    decreases b.nHeight
  {
  }

  lemma PathToIsPath(chain: seq<BlockIndex?>, b: BlockIndex)
    requires b.Linked() && PathTo(chain, b)
    ensures IsPath(chain)
  {
    forall i | 0 <= i < |chain| ensures Placed(chain, i) {
      AncestorFacts(b, i);
      if i > 0 {
        var c := b.Ancestor(i);
        assert c.pprev == c.pprev.Ancestor(i - 1) == c.Ancestor(i - 1) == b.Ancestor(i - 1);
      }
    }
  }

  /** A path is the ancestor path of each of its blocks. */
  lemma {:induction false} OnPath(chain: seq<BlockIndex?>, b: BlockIndex, h: int)
    requires IsPath(chain) && b.Linked() && 0 <= h <= b.nHeight < |chain| && chain[b.nHeight] == b
    ensures chain[h] == b.Ancestor(h)
    decreases b.nHeight
  {
    assert Placed(chain, b.nHeight);
    if h < b.nHeight {
      OnPath(chain, b.pprev, h);
    }
  }

  /** Blocks from start down to genesis, strictly descending along its
      ancestry, at most about 12 plus the logarithm of its height. */
  ghost predicate IsLocator(blocks: seq<BlockIndex>, start: BlockIndex)
    requires start.Linked()
  {
    && blocks != [] && blocks[0] == start && blocks[|blocks| - 1].nHeight == 0
    && (forall i :: 0 <= i < |blocks| ==>
          0 <= blocks[i].nHeight <= start.nHeight && blocks[i] == start.Ancestor(blocks[i].nHeight))
    && (forall i, j :: 0 <= i < j < |blocks| ==> blocks[i].nHeight > blocks[j].nHeight)
    && (|blocks| <= 12 || Pow2(|blocks| - 12) + 9 < start.nHeight)
  }

  class ActiveChain {
    var vChain: seq<BlockIndex?>

    constructor ()
      ensures vChain == []
    {
      vChain := [];
    }

    function Height(): int
      reads this
    {
      |vChain| - 1
    }

    /** operator[]. */
    function At(height: int): BlockIndex?
      reads this
    {
      if height < 0 || height >= |vChain| then null else vChain[height]
    }

    predicate Contains(b: BlockIndex)
      reads this
    {
      At(b.nHeight) == b
    }

    /** Rewrites the chain from the new tip downwards and stops at the first
        block already in place. */
    method SetTip(tip: BlockIndex?)
      requires IsPath(vChain) && (tip != null ==> tip.Linked())
      modifies this
      ensures IsPath(vChain)
      ensures tip == null ==> vChain == []
      ensures tip != null ==> PathTo(vChain, tip)
    {
      if tip == null {
        vChain := [];
        return;
      }
      LinkedHeight(tip);
      ghost var before := vChain;
      var size := tip.nHeight + 1;
      vChain := if size <= |vChain| then vChain[..size] else vChain + seq(size - |vChain|, i => null);
      var walk: BlockIndex? := tip;
      while walk != null && vChain[walk.nHeight] != walk
        invariant |vChain| == size
        invariant walk != null ==>
                    walk.Linked() && 0 <= walk.nHeight <= tip.nHeight && walk == tip.Ancestor(walk.nHeight)
        invariant forall i :: (if walk == null then -1 else walk.nHeight) < i < size ==> vChain[i] == tip.Ancestor(i)
        invariant walk != null ==>
                    forall i :: 0 <= i <= walk.nHeight ==> vChain[i] == if i < |before| then before[i] else null
        decreases if walk == null then -1 else walk.nHeight
      {
        AncestorFacts(tip, walk.nHeight);
        if walk.pprev != null { LinkedHeight(walk.pprev); assert walk.pprev == walk.Ancestor(walk.nHeight - 1); }
        vChain := vChain[walk.nHeight := walk];
        walk := walk.pprev;
      }
      if walk != null {
        forall i | 0 <= i <= walk.nHeight ensures vChain[i] == tip.Ancestor(i) {
          AncestorFacts(tip, walk.nHeight);
          OnPath(before, walk, i);
        }
      }
      PathToIsPath(vChain, tip);
    }

    /** Height h is the same block on this chain and in the ancestry of b. */
    ghost predicate Common(b: BlockIndex, h: int)
      requires b.Linked()
      reads this
    {
      0 <= h <= b.nHeight && h < |vChain| && vChain[h] == b.Ancestor(h)
    }

    /** The highest common block, or null when there is none. */
    method FindFork(b: BlockIndex?) returns (r: BlockIndex?)
      requires IsPath(vChain) && (b != null ==> b.Linked() && b.SkipsOk())
      ensures b == null ==> r == null
      ensures b != null && r != null ==> Common(b, r.nHeight) && r == b.Ancestor(r.nHeight)
      ensures b != null && r != null ==> forall h :: h > r.nHeight ==> !Common(b, h)
      ensures b != null && r == null ==> forall h :: !Common(b, h)
    {
      if b == null { return null; }
      LinkedHeight(b);
      r := b;
      if b.nHeight > Height() {
        r := GetAncestor(b, Height());
        if Height() >= 0 { AncestorFacts(b, Height()); }
      }
      while r != null && !Contains(r)
        invariant r != null ==> r.Linked() && 0 <= r.nHeight <= b.nHeight && r == b.Ancestor(r.nHeight)
        invariant forall h :: h > (if r == null then -1 else r.nHeight) ==> !Common(b, h)
        decreases if r == null then -1 else r.nHeight
      {
        AncestorFacts(b, r.nHeight);
        if r.pprev != null { LinkedHeight(r.pprev); assert r.pprev == r.Ancestor(r.nHeight - 1); }
        r := r.pprev;
      }
    }

    /** The indexed chain where it applies, the skip list elsewhere. */
    method StepBack(b: BlockIndex, height: int) returns (r: BlockIndex)
      requires IsPath(vChain) && b.Linked() && (Contains(b) || b.SkipsOk()) && 0 <= height <= b.nHeight
      ensures r == b.Ancestor(height) && r.Linked() && (Contains(r) || r.SkipsOk()) && r.nHeight == height
    {
      if Contains(b) {
        OnPath(vChain, b, height);
        r := At(height);
      } else {
        r := GetAncestor(b, height);
      }
      AncestorFacts(b, height);
    }

    /** The blocks a locator lists: exponentially larger steps back from a block
        of the tree, ending at genesis. */
    method GetLocator(b: BlockIndex?) returns (have: seq<nat>, ghost blocks: seq<BlockIndex>)
      requires IsPath(vChain) && (b != null ==> b.Linked() && (Contains(b) || b.SkipsOk()))
      ensures |have| == |blocks| && forall i :: 0 <= i < |have| ==> have[i] == blocks[i].hash
      ensures b == null && vChain == [] ==> have == []
      ensures b == null && vChain != [] ==> Placed(vChain, Height()) && IsLocator(blocks, vChain[Height()])
      ensures b != null ==> IsLocator(blocks, b)
    {
      hide IsLocator;
      have, blocks := [], [];
      if b == null && vChain == [] { return; }
      assert b == null ==> Placed(vChain, Height());
      var start: BlockIndex := if b != null then b else At(Height());
      have, blocks := WalkBack(start);
    }

    /** Lists blocks from start on, doubling the step after the first ten. */
    method WalkBack(start: BlockIndex) returns (have: seq<nat>, ghost blocks: seq<BlockIndex>)
      requires IsPath(vChain) && start.Linked() && (Contains(start) || start.SkipsOk())
      ensures |have| == |blocks| && forall i :: 0 <= i < |have| ==> have[i] == blocks[i].hash
      ensures IsLocator(blocks, start)
    {
      hide Listed, StepAt, Stepped, IsLocator, IsPath;
      have, blocks := [], [];
      var walk := start;
      var step := 1;
      ListedStart(start);
      StepStart();
      while true
        invariant walk.Linked() && (Contains(walk) || walk.SkipsOk()) && Listed(blocks, start, walk)
        invariant |have| == |blocks| && forall i :: 0 <= i < |have| ==> have[i] == blocks[i].hash
        invariant step == StepAt(|have|) >= 1
        invariant walk.nHeight == Max0(start.nHeight - Stepped(|have|))
        invariant have != [] ==> start.nHeight > Stepped(|have| - 1)
        decreases walk.nHeight
      {
        LinkedHeight(walk);
        StepNext(|have|);
        have := have + [walk.hash];
        if walk.nHeight == 0 {
          ListedEnd(blocks, start, walk);
          blocks := blocks + [walk];
          return;
        }
        var height := Max0(walk.nHeight - step);
        ListedNext(blocks, start, walk, height);
        blocks := blocks + [walk];
        walk := StepBack(walk, height);
        if |have| > 10 { step := step * 2; }
      }
    }
  }

  /** The blocks listed so far lie above walk, strictly descending from start. */
  ghost predicate Listed(blocks: seq<BlockIndex>, start: BlockIndex, walk: BlockIndex) {
    && start.Linked() && walk.Linked()
    && 0 <= walk.nHeight <= start.nHeight && walk == start.Ancestor(walk.nHeight)
    && (if blocks == [] then walk == start else blocks[0] == start)
    && (forall i :: 0 <= i < |blocks| ==>
         walk.nHeight < blocks[i].nHeight <= start.nHeight && blocks[i] == start.Ancestor(blocks[i].nHeight))
    && (forall i, j :: 0 <= i < j < |blocks| ==> blocks[i].nHeight > blocks[j].nHeight)
  }

  lemma ListedStart(start: BlockIndex)
    requires start.Linked()
    ensures Listed([], start, start)
  {
    LinkedHeight(start);
  }

  lemma ListedNext(blocks: seq<BlockIndex>, start: BlockIndex, walk: BlockIndex, height: int)
    requires Listed(blocks, start, walk) && 0 <= height < walk.nHeight
    ensures Listed(blocks + [walk], start, walk.Ancestor(height))
  {
    AncestorFacts(start, walk.nHeight);
    AncestorFacts(walk, height);
  }

  lemma ListedEnd(blocks: seq<BlockIndex>, start: BlockIndex, walk: BlockIndex)
    requires Listed(blocks, start, walk) && walk.nHeight == 0
    requires blocks != [] ==> start.nHeight > Stepped(|blocks| - 1)
    ensures IsLocator(blocks + [walk], start)
  {
    SteppedBound(|blocks| + 1, start.nHeight);
  }

  lemma StepStart()
    ensures StepAt(0) == 1 && Stepped(0) == 0
  {
  }

  lemma StepNext(k: nat)
    ensures StepAt(k + 1) == (if k + 1 > 10 then 2 * StepAt(k) else StepAt(k)) >= 1
    ensures Stepped(k + 1) == Stepped(k) + StepAt(k)
  {
  }

  /** The step in force after k blocks have been listed. */
  function StepAt(k: nat): nat {
    if k <= 10 then 1 else Pow2(k - 10)
  }

  /** How far the first k steps have gone back. */
  function Stepped(k: nat): nat {
    if k == 0 then 0 else Stepped(k - 1) + StepAt(k - 1)
  }

  lemma {:induction false} SteppedClosed(k: nat)
    ensures k >= 11 ==> Stepped(k) == 9 + Pow2(k - 10)
    ensures k <= 11 ==> Stepped(k) == k
  {
    if k > 0 {
      SteppedClosed(k - 1);
      assert Pow2(1) == 2;
    }
  }

  /** A locator grows with the logarithm of the height. */
  lemma SteppedBound(count: nat, height: int)
    requires count >= 1 && height >= 0 && (count >= 2 ==> height > Stepped(count - 2))
    ensures count <= 12 || Pow2(count - 12) + 9 < height
  {
    if count > 12 { SteppedClosed(count - 2); }
  }
}

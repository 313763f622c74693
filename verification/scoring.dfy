/**
 * The scoring half of Util.kt: how much the materials lining a shelter
 * insulate, and how much warmth a set of heat-source blocks gives off.
 */
module Scoring {
  import opened Materials

  /** The insulating weight of one lining block; every other material weighs nothing. */
  function Weight(m: Material): (w: real)
    ensures 0.0 <= w <= 4.0
  {
    match m
    case Glass => 1.0
    case Stone => 1.5
    case IronBlock => 2.0
    case DiamondBlock => 3.0
    case EmeraldBlock => 3.0
    case GoldBlock => 0.5
    case NetheriteBlock => 4.0
    case _ => 0.0
  }

  /** The total weight of a lining, accumulated from the front as the source's loop does. */
  function WeightSum(blocks: seq<Material>): (s: real)
  {
    if blocks == [] then 0.0
    else WeightSum(blocks[..|blocks| - 1]) + Weight(blocks[|blocks| - 1])
  }

  /** Every block adds between nothing and the heaviest weight. */
  lemma {:induction false} WeightSumBounds(blocks: seq<Material>)
    ensures 0.0 <= WeightSum(blocks) <= 4.0 * |blocks| as real
  {
    if blocks != [] {
      WeightSumBounds(blocks[..|blocks| - 1]);
    }
  }

  lemma {:induction false} WeightSumAppend(a: seq<Material>, b: seq<Material>)
    ensures WeightSum(a + b) == WeightSum(a) + WeightSum(b)
    decreases |b|
  {
    if b != [] {
      var b' := b[..|b| - 1];
      assert (a + b)[..|a + b| - 1] == a + b';
      WeightSumAppend(a, b');
    } else {
      assert a + b == a;
    }
  }

  /** Taking one block out of a lining removes exactly its weight. */
  lemma WeightSumRemove(b: seq<Material>, j: nat)
    requires j < |b|
    ensures WeightSum(b) == WeightSum(b[..j] + b[j + 1..]) + Weight(b[j])
  {
    var front, back := b[..j], b[j + 1..];
    assert b == (front + [b[j]]) + back;
    WeightSumAppend(front + [b[j]], back);
    assert (front + [b[j]])[..|front|] == front;
    WeightSumAppend(front, back);
  }

  /** The total weight depends only on how many of each material line the shelter, not on their order. */
  lemma {:induction false} WeightSumPermutation(a: seq<Material>, b: seq<Material>)
    requires multiset(a) == multiset(b)
    ensures WeightSum(a) == WeightSum(b)
    decreases |a|
  {
    if a != [] {
      var x := a[|a| - 1];
      var a' := a[..|a| - 1];
      assert a == a' + [x];
      assert x in multiset(b);
      var j :| 0 <= j < |b| && b[j] == x;
      var b' := b[..j] + b[j + 1..];
      assert b == b[..j] + [x] + b[j + 1..];
      assert multiset(b) == multiset(b[..j]) + multiset{x} + multiset(b[j + 1..]);
      assert multiset(b') == multiset(b[..j]) + multiset(b[j + 1..]);
      assert multiset(a) == multiset(a') + multiset{x};
      assert multiset(a') == multiset(a) - multiset{x};
      assert multiset(b') == multiset(b) - multiset{x};
      WeightSumPermutation(a', b');
      WeightSumRemove(b, j);
    } else {
      assert |b| == |multiset(b)| == 0;
    }
  }

  /**
   * The insulation factor of a lining: 1 when there is no lining, and
   * otherwise one plus the total weight, shared out over the number of blocks.
   */
  function Insulation(blocks: seq<Material>): real
  {
    if blocks == [] then 1.0 else (1.0 + WeightSum(blocks)) / |blocks| as real
  }

  /** Util.kt's `calculateInsulation`. */
  method CalculateInsulation(blocks: seq<Material>) returns (insulation: real)
    ensures insulation == Insulation(blocks)
  {
    insulation := 1.0;
    if |blocks| == 0 {
      return;
    }
    var i := 0;
    while i < |blocks|
      invariant 0 <= i <= |blocks|
      invariant insulation == 1.0 + WeightSum(blocks[..i])
    {
      assert blocks[..i + 1][..i] == blocks[..i];
      insulation := insulation + Weight(blocks[i]);
      i := i + 1;
    }
    assert blocks[..i] == blocks;
    insulation := insulation / |blocks| as real;
  }

  /** A lining always insulates by a positive factor, at most one plus the heaviest weight per block. */
  lemma InsulationBounds(blocks: seq<Material>)
    ensures Insulation(blocks) > 0.0
    ensures blocks != [] ==> Insulation(blocks) <= (1.0 + 4.0 * |blocks| as real) / |blocks| as real
  {
    WeightSumBounds(blocks);
    if blocks != [] {
      var n := |blocks| as real;
      assert 1.0 + WeightSum(blocks) <= 1.0 + 4.0 * n;
      DivideMonotone(1.0 + WeightSum(blocks), 1.0 + 4.0 * n, n);
    }
  }

  lemma DivideMonotone(x: real, y: real, n: real)
    requires x <= y && n > 0.0
    ensures x / n <= y / n
  {
    assert y / n - x / n == (y - x) / n;
  }

  /** Reordering the lining does not change the insulation factor. */
  lemma InsulationPermutation(a: seq<Material>, b: seq<Material>)
    requires multiset(a) == multiset(b)
    ensures Insulation(a) == Insulation(b)
  {
    WeightSumPermutation(a, b);
    assert |a| == |multiset(a)| == |multiset(b)| == |b|;
  }

  /** `n` blocks of one material give one plus `n` times its weight, over `n`. */
  lemma {:induction false} UniformWeight(m: Material, n: nat)
    ensures WeightSum(seq(n, _ => m)) == n as real * Weight(m)
  {
    if n > 0 {
      var s := seq(n, _ => m);
      assert s[..n - 1] == seq(n - 1, _ => m);
      UniformWeight(m, n - 1);
    }
  }

  lemma UniformInsulation(m: Material, n: nat)
    requires n > 0
    ensures Insulation(seq(n, _ => m)) == (1.0 + n as real * Weight(m)) / n as real
  {
    UniformWeight(m, n);
  }

  /** The warmth of one heat-source material; soul campfires cool. */
  function HeatWeight(m: Material): (h: real)
    ensures -0.3 <= h <= 0.7
  {
    match m
    case Lava => 0.5
    case Torch => 0.1
    case Campfire => 0.3
    case SoulCampfire => -0.3
    case Fire => 0.7
    case _ => 0.0
  }

  /**
   * The heat a set of materials gives off: each heat-source material that
   * is present counts once.
   */
  function HeatOf(sources: set<Material>): real
  {
    (if Lava in sources then 0.5 else 0.0)
    + (if Torch in sources then 0.1 else 0.0)
    + (if Campfire in sources then 0.3 else 0.0)
    + (if SoulCampfire in sources then -0.3 else 0.0)
    + (if Fire in sources then 0.7 else 0.0)
  }

  /** Adding one more material to the set adds exactly its heat weight. */
  lemma HeatOfAdd(t: set<Material>, m: Material)
    requires m !in t
    ensures HeatOf(t + {m}) == HeatOf(t) + HeatWeight(m)
  {
  }

  /** No set of sources is colder than a lone soul campfire or warmer than all four warm sources together. */
  lemma HeatOfBounds(sources: set<Material>)
    ensures -0.3 <= HeatOf(sources) <= 1.6
    ensures HeatOf({}) == 0.0
  {
  }

  /** Util.kt's `calculateHeatSources`: the set is visited in no particular order. */
  method CalculateHeatSources(sources: set<Material>) returns (heat: real)
    ensures heat == HeatOf(sources)
  {
    heat := 0.0;
    var remaining := sources;
    while remaining != {}
      invariant remaining <= sources
      invariant heat == HeatOf(sources - remaining)
      decreases |remaining|
    {
      var block :| block in remaining;
      HeatOfAdd(sources - remaining, block);
      assert sources - (remaining - {block}) == (sources - remaining) + {block};
      heat := heat + HeatWeight(block);
      remaining := remaining - {block};
    }
  }
}

/** Sums over the blocks of a heap. */
module Blocks {

  ghost function Chosen(blocks: set<nat>): (mh: nat)
    requires blocks != {}
    ensures mh in blocks
  {
    var mh :| mh in blocks;
    mh
  }

  /** The sum of `amount` over all blocks. */
  ghost function Sum<V>(blocks: map<nat, V>, amount: V -> nat): nat {
    if blocks == map[] then 0
    else
      var mh := Chosen(blocks.Keys);
      amount(blocks[mh]) + Sum(blocks - {mh}, amount)
  }

  /** Any block may be taken out of the sum first. */
  lemma {:induction false} SumWithout<V>(blocks: map<nat, V>, amount: V -> nat, mh: nat)
    requires mh in blocks
    ensures Sum(blocks, amount) == amount(blocks[mh]) + Sum(blocks - {mh}, amount)
    decreases |blocks|
  {
    var k := Chosen(blocks.Keys);
    if k != mh {
      SumWithout(blocks - {k}, amount, mh);
      SumWithout(blocks - {mh}, amount, k);
      assert blocks - {k} - {mh} == blocks - {mh} - {k};
    }
  }

  lemma SumChanged<V>(blocks: map<nat, V>, amount: V -> nat, mh: nat, v: V)
    ensures Sum(blocks[mh := v], amount) == amount(v) + Sum(blocks - {mh}, amount)
  {
    SumWithout(blocks[mh := v], amount, mh);
    assert blocks[mh := v] - {mh} == blocks - {mh};
  }

  lemma {:induction false} SameSums<V, W>(a: map<nat, V>, b: map<nat, W>, f: V -> nat, g: W -> nat)
    requires a.Keys == b.Keys && forall mh <- a :: f(a[mh]) == g(b[mh])
    ensures Sum(a, f) == Sum(b, g)
    decreases |a|
  {
    if a == map[] {
      assert b == map[];
    } else {
      var mh := Chosen(a.Keys);
      assert mh in b && (a - {mh}).Keys == a.Keys - {mh} && (b - {mh}).Keys == b.Keys - {mh};
      SameSums(a - {mh}, b - {mh}, f, g);
    }
  }

  lemma {:induction false} Count<V>(blocks: map<nat, V>, one: V -> nat)
    requires forall mh <- blocks :: one(blocks[mh]) == 1
    ensures Sum(blocks, one) == |blocks|
    decreases |blocks|
  {
    if blocks != map[] {
      var mh := Chosen(blocks.Keys);
      assert (blocks - {mh}).Keys == blocks.Keys - {mh};
      assert |blocks| == |blocks.Keys| && |blocks - {mh}| == |(blocks - {mh}).Keys|;
      Count(blocks - {mh}, one);
    }
  }
}

/** The game's random number generator, as an oracle. */
module Rand {

  /** java.util.Random seen only through its draws: the k-th call of NextInt
      reduces the arbitrary value source(k) into range. Nothing is assumed
      about how the values are distributed, so every property proved for a
      caller holds for every sequence of draws. */
  class Random {
    const source: nat -> int
    var drawn: nat

    constructor (source: nat -> int)
      ensures this.source == source && drawn == 0
    {
      this.source := source;
      drawn := 0;
    }

    /** nextInt(bound): one draw, a value in 0..bound-1. */
    method NextInt(bound: int) returns (x: int)
      requires 0 < bound
      modifies this
      ensures 0 <= x < bound
      ensures x == source(old(drawn)) % bound
      ensures drawn == old(drawn) + 1
    {
      x := source(drawn) % bound;
      drawn := drawn + 1;
    }

    /** Collections.shuffle(list, this) on a random-access list: for i from
        the size down to 2, swap positions i - 1 and nextInt(i). The result
        holds the same elements; which order comes out depends on the draws. */
    method Shuffle(list: seq<int>) returns (r: seq<int>)
      modifies this
      ensures |r| == |list| && multiset(r) == multiset(list)
      ensures drawn == old(drawn) + (if |list| > 1 then |list| - 1 else 0)
    {
      r := list;
      var i := |r|;
      while i > 1
        invariant 0 <= i <= |list|
        invariant |r| == |list| && multiset(r) == multiset(list)
        invariant drawn == old(drawn) + (if |list| > 1 then |list| - (if i > 1 then i else 1) else 0)
      {
        var j := NextInt(i);
        r := r[i - 1 := r[j]][j := r[i - 1]];
        i := i - 1;
      }
    }
  }
}

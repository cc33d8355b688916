/** The library randomness the bots use: `java.util.Random.nextInt` and
    `Collections.shuffle`. The generator is a stream of draws fixed when it
    is created; as the stream is arbitrary, every property proved about a
    caller holds for every outcome the generator could produce. */
module Randomness {

  class Random {
    /** The draws still to come. */
    var draws: seq<int>

    constructor (draws: seq<int>)
      ensures this.draws == draws
    {
      this.draws := draws;
    }

    /** `nextInt(bound)`: the number `Draw` takes from the stream, which
        loses its first draw. */
    method NextInt(bound: int) returns (r: int)
      requires bound > 0
      modifies this
      ensures r == Draw(old(draws), bound)
      ensures old(draws) == [] ==> draws == []
      ensures old(draws) != [] ==> draws == old(draws)[1..]
    {
      if draws == [] {
        r := 0;
      } else {
        r := draws[0] % bound;
        draws := draws[1..];
      }
    }
  }

  /** The number `nextInt(bound)` answers on a stream: the next draw reduced
      into [0, bound), or 0 once the stream is exhausted; any number in the
      range is the answer on some stream. */
  function Draw(draws: seq<int>, bound: int): (r: int)
    requires bound > 0
    ensures 0 <= r < bound
    ensures |draws| > 0 && 0 <= draws[0] < bound ==> r == draws[0]
  {
    if draws == [] then 0 else draws[0] % bound
  }

  /** `Collections.shuffle`: from the last position down to the second, swap
      the element there with one at a drawn position at or below it. The
      result is a permutation of the input. */
  method Shuffle<T>(a: array<T>, rnd: Random)
    modifies a, rnd
    ensures multiset(a[..]) == multiset(old(a[..]))
  {
    var i := a.Length;
    while i > 1
      invariant 0 <= i <= a.Length
      invariant multiset(a[..]) == multiset(old(a[..]))
    {
      var j := rnd.NextInt(i);
      a[i - 1], a[j] := a[j], a[i - 1];
      i := i - 1;
    }
  }
}

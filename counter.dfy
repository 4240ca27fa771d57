/**
 * A mutable tally with an identifier, ordered by its tally
 * (fundamentals/counter.rb).
 */
module Counters {

  /** Ruby's Integer#<=>: -1, 0 or 1. */
  function Spaceship(x: int, y: int): (c: int)
    ensures c == -1 || c == 0 || c == 1
    ensures c < 0 <==> x < y
    ensures c == 0 <==> x == y
    ensures c > 0 <==> x > y
  {
    if x < y then -1 else if x == y then 0 else 1
  }

  class Counter<Id> {
    const id: Id
    var tally: nat

    /** A new counter starts at 0. */
    constructor (id: Id)
      ensures this.id == id && tally == 0
    {
      this.id := id;
      tally := 0;
    }

    /** `count` is an alias of `tally`. */
    function Count(): nat
      reads this
    {
      tally
    }

    /** Adds one to the tally and returns the new tally; the id is a constant. */
    method Increment() returns (t: nat)
      modifies this
      ensures tally == old(tally) + 1
      ensures t == tally
    {
      tally := tally + 1;
      t := tally;
    }

    /**
     * `<=>`: positive, zero or negative as this tally is greater than, equal
     * to or less than the other counter's tally.
     */
    function Compare(other: Counter<Id>): (c: int)
      reads this, other
      ensures c > 0 <==> tally > other.tally
      ensures c == 0 <==> tally == other.tally
      ensures c < 0 <==> tally < other.tally
    {
      Spaceship(tally, other.tally)
    }
  }

  /** The comparison is antisymmetric: swapping the operands flips the sign. */
  lemma CompareAntisymmetric<Id>(a: Counter<Id>, b: Counter<Id>)
    ensures a.Compare(b) == -b.Compare(a)
  {
  }

  /** Incrementing twice from a fresh counter gives tallies 1 and 2, as in the tests. */
  method IncrementTwice<Id>(id: Id) returns (first: nat, second: nat)
    ensures first == 1 && second == 2
  {
    var c := new Counter(id);
    first := c.Increment();
    second := c.Increment();
  }
}

/** The random number generator, as an arbitrary stream, and the sampling of nonzero scalars. */
module Random {

  class Rng {
    const stream: nat -> nat
    var position: nat

    constructor (stream: nat -> nat)
      ensures this.stream == stream && position == 0
    {
      this.stream := stream;
      position := 0;
    }

    /** The scalar that draw number `i` gives. */
    function Draw(i: nat, order: nat): nat
      requires 0 < order
    {
      stream(i) % order
    }

    ghost predicate NonzeroFrom(i: nat, order: nat)
      requires 0 < order
    {
      exists j: nat :: i <= j && Draw(j, order) != 0
    }

    /** However much has been drawn, some later draw is a nonzero scalar. */
    ghost predicate Productive(order: nat)
      requires 0 < order
    {
      forall i: nat :: NonzeroFrom(i, order)
    }

    /** The draws from `from` up to `next` are all zero but the last. */
    ghost predicate FirstNonzero(from: nat, next: nat, order: nat)
      requires 0 < order
    {
      && from < next
      && Draw(next - 1, order) != 0
      && forall i: nat :: from <= i < next - 1 ==> Draw(i, order) == 0
    }

    /** Draws until a scalar is nonzero. */
    method RandomScalar(order: nat) returns (k: nat)
      requires 0 < order && Productive(order)
      modifies this`position
      ensures 0 < k < order
      ensures FirstNonzero(old(position), position, order) && k == Draw(position - 1, order)
    {
      assert NonzeroFrom(position, order);
      ghost var bound: nat :| position <= bound && Draw(bound, order) != 0;
      k := Draw(position, order);
      position := position + 1;
      while k == 0
        invariant old(position) < position && k == Draw(position - 1, order)
        invariant forall i: nat :: old(position) <= i < position - 1 ==> Draw(i, order) == 0
        invariant position <= bound + 1
        decreases bound + 1 - position
      {
        k := Draw(position, order);
        position := position + 1;
      }
    }
  }
}

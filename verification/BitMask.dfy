/** `a & ~b` on unsigned words, bit by bit. */
module BitMask {

  function AndNot(a: nat, b: nat): nat {
    if a == 0 then 0
    else 2 * AndNot(a / 2, b / 2) + (if b % 2 == 0 then a % 2 else 0)
  }

  /** Clearing bits lowers a number by at most the mask, whatever the mask is. */
  lemma {:induction false} AndNotBounds(a: nat, b: nat)
    ensures AndNot(a, b) <= a <= AndNot(a, b) + b
  {
    if a != 0 {
      AndNotBounds(a / 2, b / 2);
    }
  }
}

/** Small types shared by every component of the model. */
module Prelude {
  datatype Option<+T> = None | Some(value: T)

  /** `uint8_t` and `uint16_t`: the source relies on both widths. */
  type Byte = b: int | 0 <= b < 0x100
  type Word = w: int | 0 <= w < 0x1_0000

  /** A product under a name of its own, so that proofs can keep it folded. */
  function Times(x: nat, y: nat): nat {
    x * y
  }

  lemma ProductMonotone(x: nat, y: nat, k: nat)
    requires x <= y
    ensures x * k <= y * k
  {
    assert y * k == x * k + (y - x) * k;
  }

  lemma ProductOrder(x: nat, y: nat, k: nat)
    requires x * k < y * k
    ensures x < y
  {
    if y <= x {
      ProductMonotone(y, x, k);
    }
  }
}

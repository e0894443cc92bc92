/** Unsigned 32-bit words. */
module Words {
  const W: nat := 0x1_0000_0000

  type Word = x: nat | x < W

  function Wrap(x: nat): Word {
    x % W
  }
}

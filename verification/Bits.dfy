// Numbers as 32-bit words.
module Bits {
  // The word with value n, one binary digit at a time.
  function Word(n: nat): (w: bv32)
    requires n < 0x1_0000_0000
    ensures w as nat == n
  {
    if n == 0 then 0
    else
      var half := Word(n / 2);
      Half(half);
      AddDigit(half);
      if n % 2 == 0 then half << 1 else (half << 1) | 1
  }

  lemma AddDigit(w: bv32)
    requires w <= 0x7fff_ffff
    ensures (w << 1) as nat == 2 * (w as nat)
    ensures ((w << 1) | 1) as nat == 2 * (w as nat) + 1
  {
  }

  lemma Half(w: bv32)
    ensures w as nat < 0x8000_0000 ==> w <= 0x7fff_ffff
  {
  }
}

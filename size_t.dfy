/** `size_t` arithmetic: both containers count their elements in a `size_t`. */
module SizeT {

  /** 2^64: `size_t` arithmetic is modulo this. */
  const Wrap: int := 0x1_0000_0000_0000_0000

  function Inc(n: nat): (r: nat)
    ensures r < Wrap && (n < Wrap - 1 ==> r == n + 1)
  {
    (n + 1) % Wrap
  }

  function Dec(n: nat): (r: nat)
    ensures r < Wrap && (0 < n < Wrap ==> r == n - 1) && (n == 0 ==> r == Wrap - 1)
  {
    (n - 1) % Wrap
  }

  lemma IncMod(m: int)
    requires m >= 0
    ensures Inc(m % Wrap) == (m + 1) % Wrap
  {
  }

  lemma DecMod(n: nat)
    requires n > 0
    ensures Dec(n % Wrap) == (n - 1) % Wrap
  {
  }
}

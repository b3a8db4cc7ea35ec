/** Indices that go around a circle. */
module Wrapping {

  /** A number below twice the size, modulo the size. */
  function Wrap(n: nat, size: nat): nat { if n >= size then n - size else n }

  lemma WrapIsMod(n: nat, size: nat)
    requires 0 < size && n < 2 * size
    ensures Wrap(n, size) == n % size
  {
    if n >= size {
      assert n == size + (n - size);
      assert n / size == 1;
    }
  }
}

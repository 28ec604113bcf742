/** Shared vocabulary of the hexlog supervisor: bytes, the direction mask, and
    the descriptor and signal numbers the relay logic compares against. */
module HexlogBase {

  /** An unsigned byte, as the relay's buffers hold them. */
  newtype byte = x: int | 0 <= x < 256

  datatype Option<T> = None | Some(value: T)

  // Direction mask bits.
  const NONE: int := 0
  const IN: int := 1
  const OUT: int := 2

  const STDIN_FILENO: int := 0

  // Signal numbers, with the values Linux gives them.
  const SIGHUP: int := 1
  const SIGUSR1: int := 10
  const SIGUSR2: int := 12
  const SIGCHLD: int := 17

  /** A direction mask: a subset of {IN, OUT}. */
  predicate IsMask(d: int) {
    0 <= d <= 3
  }

  /** `d & bit` is non-zero. For a one-bit `bit` this reads bit `bit` of the
      two's-complement representation of `d`, which Dafny's flooring division
      gives for every integer, negative ones included. */
  predicate HasBit(d: int, bit: int)
    requires bit == IN || bit == OUT
  {
    (d / bit) % 2 == 1
  }

  function Min(a: int, b: int): int {
    if a <= b then a else b
  }
}

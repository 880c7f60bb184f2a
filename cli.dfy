/**
 * Shared pieces of the two command-line drivers: the outcome of the argument
 * checks at the top of `main`, and the conversion of `std::atoi`'s `int`
 * result to the `unsigned` variable both drivers store it in.
 */
module Cli {

  /** 2^32: `unsigned` is 32 bits wide. */
  const UnsignedModulus: nat := 0x1_0000_0000

  /** The values an `int` (32 bits, two's complement) can hold; `std::atoi` returns one of these. */
  predicate IsInt32(x: int) {
    -0x8000_0000 <= x < 0x8000_0000
  }

  /** The implicit conversion of an `int` to `unsigned`: reduction modulo 2^32. */
  function ToUnsigned(x: int): (u: nat)
    ensures u < UnsignedModulus
    ensures 0 <= x < UnsignedModulus ==> u == x
    ensures IsInt32(x) ==> (u == 0 <==> x == 0)
  {
    x % UnsignedModulus
  }

  /** What the argument checks at the top of a driver's `main` decide. */
  datatype ArgCheck =
    | Exit(code: int)      // `main` prints the usage text and returns `code`
    | Proceed(count: nat)  // the checks passed; `count` is the `unsigned` N read from the arguments
}

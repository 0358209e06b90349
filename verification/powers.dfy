/**
 * Exponentiation for the callbacks of the fold and partial-application
 * examples (PHP's `**` on natural numbers).
 */
module Powers {
  /** `$x ** $e` on natural numbers. */
  function Pow(x: nat, e: nat): nat
  {
    if e == 0 then 1 else x * Pow(x, e - 1)
  }

  /** The callback of the fold tests: `function ($acc, $x) { return $x ** $acc; }`. */
  function PowStep(acc: nat, x: nat): nat
  {
    Pow(x, acc)
  }
}

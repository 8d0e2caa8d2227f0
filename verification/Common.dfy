/** Small notions the kernel's memory managers share. */
module Common {

  const ALIGN_SIZE: nat := 4

  datatype Option<T> = None | Some(value: T)

  function Least(a: nat, b: nat): nat {
    if a < b then a else b
  }

  function AlignUp(n: nat): nat {
    (n + ALIGN_SIZE - 1) / ALIGN_SIZE * ALIGN_SIZE
  }

  function AlignDown(n: nat): nat {
    n / ALIGN_SIZE * ALIGN_SIZE
  }

  lemma AlignUpFacts(n: nat)
    ensures AlignUp(n) % ALIGN_SIZE == 0 && n <= AlignUp(n) < n + ALIGN_SIZE && (n == 0 <==> AlignUp(n) == 0)
  {
  }

  lemma AlignDownFacts(n: nat)
    ensures AlignDown(n) % ALIGN_SIZE == 0 && n - ALIGN_SIZE < AlignDown(n) <= n
  {
  }

  lemma AlignUpFixed(n: nat)
    requires n % ALIGN_SIZE == 0
    ensures AlignUp(n) == n
  {
  }

  lemma AlignedSum(a: nat, b: nat)
    requires a % ALIGN_SIZE == 0 && b % ALIGN_SIZE == 0
    ensures (a + b) % ALIGN_SIZE == 0
  {
  }

  lemma AlignedRest(a: nat, b: nat, c: nat)
    requires a % ALIGN_SIZE == 0 && b % ALIGN_SIZE == 0 && c % ALIGN_SIZE == 0 && a >= b + 2 * c
    ensures (a - b - 2 * c) % ALIGN_SIZE == 0
  {
  }
}

/** Go's unsigned counters, as far as they matter: decrementing zero wraps. */
module Counters {

  const MAX_UINT64: nat := 0xFFFF_FFFF_FFFF_FFFF

  function Dec(n: nat): nat {
    if n == 0 then MAX_UINT64 else n - 1
  }
}

/** Places in a ring of n, counted from the one after `current`; `current` itself comes last. */
module Cyclic {

  function At(n: nat, current: nat, k: nat): (id: nat)
    requires current < n && k < n
    ensures id < n && Pos(n, current, id) == k
  {
    var x := current + k + 1;
    if x < n then x else x - n
  }

  function Pos(n: nat, current: nat, id: nat): (k: nat)
    requires current < n && id < n
    ensures k < n
  {
    if id > current then id - current - 1 else id + n - current - 1
  }
}
